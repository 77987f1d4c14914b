/**
 What the reader makes of the sender's chunks: bodies come back whole under every interleaving
 of channels, and times come back exactly when the sender's time fields can carry them.
 */
module RtmpReassembly {
  import opened Arithmetic
  import opened Bytes
  import opened RtmpChunkFormat
  import opened RtmpReader

  //
  // One header
  //

  /** The size and kind a short header leaves to the channel's last message. */
  function RefSize(prev: Option<Sent>): nat { if prev.Some? then prev.value.size else 0 }

  function RefKind(prev: Option<Sent>): byte { if prev.Some? then prev.value.kind else 0 }

  function LastTime(prev: Option<Sent>): u32 { if prev.Some? then prev.value.stamp else 0 }

  /** What a caller must see to before sending: a size the header can hold, and short formats only for repeats. */
  predicate Sendable(prev: Option<Sent>, m: Message) {
    && m.format <= 3
    && |m.body| < TWO_24
    && (m.format >= SMALL ==> prev.Some? && |m.body| == RefSize(prev) && m.kind == RefKind(prev))
  }

  /** Sender and reader remember the same last message on a channel. */
  ghost predicate InStep(prev: Option<Sent>, c: Channel) {
    match prev
    case None => c.ref.None?
    case Some(s) =>
      c.ref.Some? && c.ref.value.size == s.size && c.ref.value.kind == s.kind && c.ref.value.got == []
      && !c.ref.value.absolute
  }

  lemma BasicHeaderParses(format: nat, ch: nat, tail: seq<byte>)
    requires format <= 3 && ValidChannel(ch)
    ensures var b := BasicHeader(format, ch);
      && BasicLength((b + tail)[0]) == |b|
      && (b + tail)[0] / 64 == format
      && ChannelOf(b) == ch
  {}

  lemma FieldsSay(format: nat, t: nat, size: nat, kind: byte, info: int)
    requires format < MINIMUM && t < TWO_24
    ensures var f := MessageFields(format, t, size, kind, info);
      && |f| == PacketSize(format) - 1
      && Int24(f) == t
      && (format < SMALL ==> Int24(f[3..]) == size % TWO_24 && f[6] == kind)
      && (format == LARGE ==> SignedLe32(f[7..]) == SignedLe32(Le32(info)))
  {
    var f := MessageFields(format, t, size, kind, info);
    Be24Int24(t);
    if format < SMALL {
      Be24Int24(size);
      assert f[3..6] == Be24(size);
      if format == LARGE {
        assert f[7..] == Le32(info);
      }
    }
  }

  /** The header of a message, as the reader sees it. */
  function SentHead(prev: Option<Sent>, ch: nat, m: Message): Head
    requires m.format <= 3 && ch < CHANNELS
  {
    var f := Compressed(prev, m);
    var t := TimeField(prev, m);
    Head(f, ch, MessageFields(f, t, |m.body|, m.kind, m.info),
         if f < MINIMUM then Some(t) else None, |Header(prev, ch, m)|)
  }

  lemma HeadParses(format: nat, ch: nat, fields: seq<byte>, tail: seq<byte>)
    requires format <= 3 && ValidChannel(ch) && |fields| == PacketSize(format) - 1
    requires format < MINIMUM ==> Int24(fields) < 0xff_ffff
    ensures var b := BasicHeader(format, ch);
      ParseHead(b + fields + tail)
        == Some(Head(format, ch, fields, if format < MINIMUM then Some(Int24(fields)) else None, |b + fields|))
  {
    hide BasicHeader;
    var b := BasicHeader(format, ch);
    BasicHeaderParses(format, ch, fields + tail);
    var input := b + fields + tail;
    assert input == b + (fields + tail);
    assert input[..|b|] == b;
    assert input[|b|..|b| + |fields|] == fields;
  }

  lemma HeaderParses(prev: Option<Sent>, ch: nat, m: Message, tail: seq<byte>)
    requires m.format <= 3 && ValidChannel(ch)
    ensures ParseHead(Header(prev, ch, m) + tail) == Some(SentHead(prev, ch, m))
  {
    hide ParseHead, BasicHeader, Int24;
    var f := Compressed(prev, m);
    if f < MINIMUM {
      FieldsSay(f, TimeField(prev, m), |m.body|, m.kind, m.info);
    }
    HeadParses(f, ch, MessageFields(f, TimeField(prev, m), |m.body|, m.kind, m.info), tail);
  }

  lemma ContinuationParses(ch: nat, tail: seq<byte>)
    requires ValidChannel(ch)
    ensures var b := BasicHeader(MINIMUM, ch);
      ParseHead(b + tail) == Some(Head(MINIMUM, ch, [], None, |b|))
  {
    var b := BasicHeader(MINIMUM, ch);
    BasicHeaderParses(MINIMUM, ch, tail);
    assert (b + tail)[..|b|] == b;
  }

  /** The packet the reader fills when the message's first chunk comes in. */
  function Begun(prev: Option<Sent>, m: Message, c: Channel): Packet
    requires m.format <= 3
  {
    var f := Compressed(prev, m);
    var was := if c.ref.Some? then c.ref.value else BLANK;
    Packet(
      if f < MINIMUM then TimeField(prev, m) else was.stamp,
      f == LARGE,
      m.kind,
      if f == LARGE then SignedLe32(Le32(m.info)) else was.info,
      |m.body|,
      [])
  }

  lemma HeaderOpens(prev: Option<Sent>, ch: nat, m: Message, c: Channel)
    requires ValidChannel(ch) && Sendable(prev, m) && InStep(prev, c)
    ensures Opened(SentHead(prev, ch, m), c.ref, BLANK) == Begun(prev, m, c)
  {
    hide MessageFields, Header;
    var f := Compressed(prev, m);
    if f < MINIMUM {
      FieldsSay(f, TimeField(prev, m), |m.body|, m.kind, m.info);
    }
  }

  /** The reader makes out the message's size and kind. */
  predicate MadeOut(p: Packet, m: Message) { p.size == |m.body| && p.kind == m.kind }

  ghost predicate AlwaysMadeOut(h: Head, ref: Option<Packet>, m: Message)
    requires ref.Some? ==> |ref.value.got| <= ref.value.size
    requires h.format <= 3 && |h.fields| == PacketSize(h.format) - 1
    requires h.format < MINIMUM ==> h.stamp.Some?
  {
    forall own: Packet | |own.got| <= own.size :: MadeOut(Opened(h, ref, own), m)
  }

  lemma OpenedSays(prev: Option<Sent>, ch: nat, m: Message, c: Channel, own: Packet)
    requires ValidChannel(ch) && m.format <= 3 && InStep(prev, c) && |own.got| <= own.size
    ensures var h := SentHead(prev, ch, m);
      && |h.fields| == PacketSize(h.format) - 1
      && var p := Opened(h, c.ref, own);
        && p.size == (if h.format < SMALL then |m.body| % TWO_24 else if prev.Some? then RefSize(prev) else own.size)
        && p.kind == (if h.format < SMALL then m.kind else if prev.Some? then RefKind(prev) else own.kind)
  {
    var f := Compressed(prev, m);
    assert |SentHead(prev, ch, m).fields| == PacketSize(f) - 1;
    hide MessageFields, Header;
    if f < MINIMUM {
      FieldsSay(f, TimeField(prev, m), |m.body|, m.kind, m.info);
    }
  }

  /**
   * The guard is exact: without it the header announces another size or kind than the message has, at least to a
   * caller whose packet holds another.
   */
  lemma SendableIsExact(prev: Option<Sent>, ch: nat, m: Message, c: Channel)
    requires ValidChannel(ch) && m.format <= 3 && InStep(prev, c)
    requires RefSize(prev) < TWO_24
    ensures |SentHead(prev, ch, m).fields| == PacketSize(Compressed(prev, m)) - 1
    ensures AlwaysMadeOut(SentHead(prev, ch, m), c.ref, m) <==> Sendable(prev, m)
  {
    hide Opened, MessageFields, Header;
    var h, other := SentHead(prev, ch, m), BLANK.(size := |m.body| + 1);
    OpenedSays(prev, ch, m, c, other);
    if Sendable(prev, m) {
      forall own: Packet | |own.got| <= own.size ensures MadeOut(Opened(h, c.ref, own), m) {
        OpenedSays(prev, ch, m, c, own);
      }
    } else {
      assert !MadeOut(Opened(h, c.ref, other), m);
    }
  }

  /** What the caller's packet held makes no difference to a sendable message but in the stream number. */
  lemma CallersPacketReplaced(prev: Option<Sent>, ch: nat, m: Message, c: Channel, own: Packet)
    requires ValidChannel(ch) && Sendable(prev, m) && InStep(prev, c) && |own.got| <= own.size
    requires c.ref.None? ==> c.time == 0
    ensures var h := SentHead(prev, ch, m);
      var a, b := Filled(Opened(h, c.ref, own), m.body), Filled(Opened(h, c.ref, BLANK), m.body);
      && Delivered(ch, a, c.time).(info := 0) == Delivered(ch, b, c.time).(info := 0)
      && Stored(a, c.time).time == Stored(b, c.time).time
  {
    hide MessageFields, Header;
    var f := Compressed(prev, m);
    if f < MINIMUM {
      FieldsSay(f, TimeField(prev, m), |m.body|, m.kind, m.info);
    }
  }

  //
  // One channel
  //

  /** The chunks can be read one by one, each taken whole and on this channel. */
  ghost predicate Readable(c: Channel, ch: nat, chunkSize: nat, chunks: seq<seq<byte>>)
    requires ChannelValid(c)
    decreases chunks
  {
    chunks == [] ||
    var r := ReadChunk(map[ch := c], chunkSize, chunks[0]);
    && r.Some? && r.value.used == |chunks[0]| && r.value.channel == ch
    && Readable(r.value.after, ch, chunkSize, chunks[1..])
  }

  /** The whole messages that come out of them. */
  ghost function Messages(c: Channel, ch: nat, chunkSize: nat, chunks: seq<seq<byte>>): seq<Received>
    requires ChannelValid(c) && Readable(c, ch, chunkSize, chunks)
    decreases chunks
  {
    if chunks == [] then []
    else
      var step := ReadChunk(map[ch := c], chunkSize, chunks[0]).value;
      (if step.received.whole then [step.received] else []) + Messages(step.after, ch, chunkSize, chunks[1..])
  }

  /** The channel's state after them. */
  ghost function After(c: Channel, ch: nat, chunkSize: nat, chunks: seq<seq<byte>>): (c': Channel)
    requires ChannelValid(c) && Readable(c, ch, chunkSize, chunks)
    ensures ChannelValid(c')
    decreases chunks
  {
    if chunks == [] then c
    else After(ReadChunk(map[ch := c], chunkSize, chunks[0]).value.after, ch, chunkSize, chunks[1..])
  }

  lemma {:induction false} ReadableConcat(c: Channel, ch: nat, chunkSize: nat, a: seq<seq<byte>>, b: seq<seq<byte>>)
    requires ChannelValid(c) && Readable(c, ch, chunkSize, a)
    requires Readable(After(c, ch, chunkSize, a), ch, chunkSize, b)
    ensures Readable(c, ch, chunkSize, a + b)
    ensures Messages(c, ch, chunkSize, a + b)
         == Messages(c, ch, chunkSize, a) + Messages(After(c, ch, chunkSize, a), ch, chunkSize, b)
    ensures After(c, ch, chunkSize, a + b) == After(After(c, ch, chunkSize, a), ch, chunkSize, b)
    decreases a
  {
    hide ReadChunk;
    if a == [] {
      assert a + b == b;
    } else {
      assert (a + b)[0] == a[0];
      assert (a + b)[1..] == a[1..] + b;
      var c' := ReadChunk(map[ch := c], chunkSize, a[0]).value.after;
      assert After(c, ch, chunkSize, a) == After(c', ch, chunkSize, a[1..]);
      ReadableConcat(c', ch, chunkSize, a[1..], b);
    }
  }

  lemma ReadableCons(c: Channel, ch: nat, chunkSize: nat, chunk: seq<byte>, rest: seq<seq<byte>>, step: Step)
    requires ChannelValid(c) && ReadChunk(map[ch := c], chunkSize, chunk) == Some(step)
    requires step.used == |chunk| && step.channel == ch && Readable(step.after, ch, chunkSize, rest)
    ensures var chunks := [chunk] + rest;
      && Readable(c, ch, chunkSize, chunks)
      && Messages(c, ch, chunkSize, chunks)
        == (if step.received.whole then [step.received] else []) + Messages(step.after, ch, chunkSize, rest)
      && After(c, ch, chunkSize, chunks) == After(step.after, ch, chunkSize, rest)
  {
    hide ReadChunk;
    assert ([chunk] + rest)[1..] == rest;
  }

  lemma NothingToRead(c: Channel, ch: nat, chunkSize: nat)
    requires ChannelValid(c)
    ensures Readable(c, ch, chunkSize, []) && Messages(c, ch, chunkSize, []) == [] && After(c, ch, chunkSize, []) == c
  {}

  function StepTo(used: nat, ch: nat, p: Packet, time: u32): Step {
    Step(used, ch, Stored(p, time), Delivered(ch, p, time))
  }

  /** Any one chunk whose head opens packet `p`: what the reader does with it. */
  lemma ChunkRead(c: Channel, ch: nat, chunkSize: nat, header: seq<byte>, slice: seq<byte>, h: Head, p: Packet)
    requires ChannelValid(c) && |p.got| <= p.size
    requires ParseHead(header + slice) == Some(h) && h.channel == ch && h.length == |header|
    requires Opened(h, c.ref, BLANK) == p && |slice| == SliceLength(p, chunkSize)
    ensures ReadChunk(map[ch := c], chunkSize, header + slice)
         == Some(StepTo(|header + slice|, ch, Filled(p, slice), c.time))
  {
    assert (header + slice)[|header|..|header + slice|] == slice;
  }

  /** Continuations finish a packet of which `p.got` has come in. */
  lemma {:induction false} ContinuationRead(c: Channel, ch: nat, chunkSize: nat, p: Packet, rest: seq<byte>)
    requires ValidChannel(ch) && chunkSize >= 1
    requires rest != [] && p.size == |p.got| + |rest| && c.ref == Some(p)
    ensures var chunks, done := Continuation(ch, rest, chunkSize), Filled(p, rest);
      && Readable(c, ch, chunkSize, chunks)
      && Messages(c, ch, chunkSize, chunks) == [Delivered(ch, done, c.time)]
      && After(c, ch, chunkSize, chunks) == Stored(done, c.time)
    decreases |rest|
  {
    hide ReadChunk, Readable, Messages, After, ParseHead, BasicHeader;
    var n := Min(chunkSize, |rest|);
    var b := BasicHeader(MINIMUM, ch);
    var p' := Filled(p, rest[..n]);
    ContinuationParses(ch, rest[..n]);
    ChunkRead(c, ch, chunkSize, b, rest[..n], Head(MINIMUM, ch, [], None, |b|), p);
    var step := StepTo(|b + rest[..n]|, ch, p', c.time);
    if rest[n..] == [] {
      assert rest[..n] == rest;
      NothingToRead(step.after, ch, chunkSize);
    } else {
      ContinuationRead(Channel(Some(p'), c.time), ch, chunkSize, p', rest[n..]);
      assert p'.got + rest[n..] == p.got + rest;
    }
    ReadableCons(c, ch, chunkSize, b + rest[..n], Continuation(ch, rest[n..], chunkSize), step);
  }

  /** What the reader delivers for message `m`. */
  function Expected(prev: Option<Sent>, ch: nat, m: Message, c: Channel): Received
    requires m.format <= 3
  {
    Delivered(ch, Filled(Begun(prev, m, c), m.body), c.time)
  }

  /** All chunks of a body, the first behind a header that opens packet `p`. */
  lemma {:induction false} ChunksRead(c: Channel, ch: nat, chunkSize: nat, header: seq<byte>, body: seq<byte>, h: Head,
                                      p: Packet)
    requires ValidChannel(ch) && chunkSize >= 1 && ChannelValid(c) && p.got == [] && p.size == |body|
    requires ParseHead(header + body[..Min(chunkSize, |body|)]) == Some(h) && h.channel == ch && h.length == |header|
    requires Opened(h, c.ref, BLANK) == p
    ensures var chunks, done := ChunksAfter(header, ch, body, chunkSize), Filled(p, body);
      && Readable(c, ch, chunkSize, chunks)
      && Messages(c, ch, chunkSize, chunks) == [Delivered(ch, done, c.time)]
      && After(c, ch, chunkSize, chunks) == Stored(done, c.time)
  {
    hide ReadChunk, Readable, Messages, After, ParseHead, Opened, BasicHeader;
    var n := Min(chunkSize, |body|);
    ChunkRead(c, ch, chunkSize, header, body[..n], h, p);
    var rest, p' := body[n..], Filled(p, body[..n]);
    var step := StepTo(|header + body[..n]|, ch, p', c.time);
    if rest == [] {
      assert body[..n] == body;
      NothingToRead(step.after, ch, chunkSize);
    } else {
      ContinuationRead(Channel(Some(p'), c.time), ch, chunkSize, p', rest);
      assert p'.got + rest == p.got + body;
    }
    ReadableCons(c, ch, chunkSize, header + body[..n], Continuation(ch, rest, chunkSize), step);
  }

  /** One message sent, one message received: same channel, kind and body, and both sides stay in step. */
  lemma {:induction false} MessageRead(prev: Option<Sent>, ch: nat, m: Message, c: Channel, chunkSize: nat)
    requires ValidChannel(ch) && chunkSize >= 1 && ChannelValid(c)
    requires Sendable(prev, m) && InStep(prev, c)
    ensures var chunks := Chunks(prev, ch, m, chunkSize);
      && Readable(c, ch, chunkSize, chunks)
      && Messages(c, ch, chunkSize, chunks) == [Expected(prev, ch, m, c)]
      && After(c, ch, chunkSize, chunks) == Stored(Filled(Begun(prev, m, c), m.body), c.time)
      && InStep(Some(Remember(m)), After(c, ch, chunkSize, chunks))
  {
    hide ReadChunk, Readable, Messages, After, ParseHead, Opened, Header, Compressed, TimeField, BasicHeader;
    HeaderParses(prev, ch, m, m.body[..Min(chunkSize, |m.body|)]);
    HeaderOpens(prev, ch, m, c);
    ChunksRead(c, ch, chunkSize, Header(prev, ch, m), m.body, SentHead(prev, ch, m), Begun(prev, m, c));
  }

  /** All chunks of a run of messages on one channel. */
  function ChannelChunks(prev: Option<Sent>, ch: nat, msgs: seq<Message>, chunkSize: nat): seq<seq<byte>>
    requires ch < CHANNELS && chunkSize >= 1 && AllSendable(prev, msgs)
    decreases msgs
  {
    if msgs == [] then []
    else Chunks(prev, ch, msgs[0], chunkSize) + ChannelChunks(Some(Remember(msgs[0])), ch, msgs[1..], chunkSize)
  }

  predicate AllSendable(prev: Option<Sent>, msgs: seq<Message>)
    decreases msgs
  {
    msgs == [] || (Sendable(prev, msgs[0]) && AllSendable(Some(Remember(msgs[0])), msgs[1..]))
  }

  /** The received messages are the sent ones: channel, kind, size and body. */
  ghost predicate Recovered(out: seq<Received>, ch: nat, msgs: seq<Message>) {
    |out| == |msgs| && forall i | 0 <= i < |out| :: RecoveredOne(out[i], ch, msgs[i])
  }

  predicate RecoveredOne(r: Received, ch: nat, m: Message) {
    r.whole && r.channel == ch && r.kind == m.kind && r.size == |m.body| && r.body == m.body
  }

  lemma RecoveredCons(first: Received, out: seq<Received>, ch: nat, msgs: seq<Message>)
    requires msgs != [] && Recovered([first], ch, msgs[..1]) && Recovered(out, ch, msgs[1..])
    ensures Recovered([first] + out, ch, msgs)
  {
    hide RecoveredOne;
    var all := [first] + out;
    forall i | 0 <= i < |all|
      ensures RecoveredOne(all[i], ch, msgs[i])
    {
      if i == 0 {
        assert RecoveredOne([first][0], ch, msgs[..1][0]);
      } else {
        assert all[i] == out[i - 1] && msgs[i] == msgs[1..][i - 1];
      }
    }
  }

  /** The channel's state after message `m`. */
  function Settled(prev: Option<Sent>, m: Message, c: Channel): Channel
    requires m.format <= 3
  {
    Stored(Filled(Begun(prev, m, c), m.body), c.time)
  }

  /** What is delivered for a run of messages. */
  function ExpectedRun(prev: Option<Sent>, ch: nat, msgs: seq<Message>, c: Channel): seq<Received>
    requires AllSendable(prev, msgs)
    decreases msgs
  {
    if msgs == [] then []
    else
      var prev', c' := Some(Remember(msgs[0])), Settled(prev, msgs[0], c);
      [Expected(prev, ch, msgs[0], c)] + ExpectedRun(prev', ch, msgs[1..], c')
  }

  lemma {:induction false} ChannelRead(prev: Option<Sent>, ch: nat, msgs: seq<Message>, c: Channel, chunkSize: nat)
    requires ValidChannel(ch) && chunkSize >= 1 && ChannelValid(c)
    requires AllSendable(prev, msgs) && InStep(prev, c)
    ensures var chunks := ChannelChunks(prev, ch, msgs, chunkSize);
      && Readable(c, ch, chunkSize, chunks)
      && Messages(c, ch, chunkSize, chunks) == ExpectedRun(prev, ch, msgs, c)
    decreases msgs
  {
    hide ReadChunk, Readable, Messages, After, Chunks, Expected;
    if msgs == [] {
      NothingToRead(c, ch, chunkSize);
    } else {
      var first := Chunks(prev, ch, msgs[0], chunkSize);
      var rest := ChannelChunks(Some(Remember(msgs[0])), ch, msgs[1..], chunkSize);
      MessageRead(prev, ch, msgs[0], c, chunkSize);
      var c' := After(c, ch, chunkSize, first);
      ChannelRead(Some(Remember(msgs[0])), ch, msgs[1..], c', chunkSize);
      ReadableConcat(c, ch, chunkSize, first, rest);
    }
  }

  lemma {:induction false} RunRecovered(prev: Option<Sent>, ch: nat, msgs: seq<Message>, c: Channel)
    requires AllSendable(prev, msgs)
    ensures Recovered(ExpectedRun(prev, ch, msgs, c), ch, msgs)
    decreases msgs
  {
    if msgs != [] {
      var prev', c' := Some(Remember(msgs[0])), Settled(prev, msgs[0], c);
      RunRecovered(prev', ch, msgs[1..], c');
      RecoveredCons(Expected(prev, ch, msgs[0], c), ExpectedRun(prev', ch, msgs[1..], c'), ch, msgs);
    }
  }

  //
  // Times
  //

  /** The time field the channel last carried, which a new message behind a type 3 header makes the reader add again. */
  function Carried(c: Channel): u32 { if c.ref.Some? then c.ref.value.stamp else 0 }

  function CarriedAfter(prev: Option<Sent>, m: Message, carried: u32): u32 {
    if Compressed(prev, m) < MINIMUM then TimeField(prev, m) else carried
  }

  /**
   When the sender can tell that a time gets across: a full header needs an absolute time, and
   a short one a difference, below 0xffffff; a type 3 header needs a difference that repeats.
   */
  predicate TimeFits(prev: Option<Sent>, m: Message, carried: u32) {
    var f, delta := Compressed(prev, m), (m.stamp - LastTime(prev)) % TWO_32;
    if f == LARGE then m.stamp < 0xff_ffff else if f < MINIMUM then delta < 0xff_ffff else delta == carried
  }

  predicate AllTimesFit(prev: Option<Sent>, msgs: seq<Message>, carried: u32)
    decreases msgs
  {
    msgs == [] ||
    (TimeFits(prev, msgs[0], carried)
     && AllTimesFit(Some(Remember(msgs[0])), msgs[1..], CarriedAfter(prev, msgs[0], carried)))
  }

  lemma Wraps(a: u32, b: u32)
    ensures (a - b) % TWO_32 == if a >= b then a - b else a - b + TWO_32
    ensures (a + b) % TWO_32 == if a + b < TWO_32 then a + b else a + b - TWO_32
  {
    if a < b { DivUnique(a - b, TWO_32, -1, a - b + TWO_32); }
    if a + b >= TWO_32 { DivUnique(a + b, TWO_32, 1, a + b - TWO_32); }
  }

  lemma WrapsBack(stamp: u32, last: u32, delta: u32, added: u32)
    requires delta == if stamp >= last then stamp - last else stamp - last + TWO_32
    ensures (added + last) % TWO_32 == stamp <==> added == delta
  {
    Wraps(added, last);
  }

  lemma TimeExact(prev: Option<Sent>, ch: nat, m: Message, c: Channel)
    requires Sendable(prev, m) && c.time == LastTime(prev)
    ensures Expected(prev, ch, m, c).stamp == m.stamp <==> TimeFits(prev, m, Carried(c))
    ensures Settled(prev, m, c).time == Expected(prev, ch, m, c).stamp
    ensures Carried(Settled(prev, m, c)) == CarriedAfter(prev, m, Carried(c))
  {
    var f, last := Compressed(prev, m), LastTime(prev);
    var delta := (m.stamp - last) % TWO_32;
    assert f == LARGE <==> m.format == LARGE;
    Wraps(m.stamp, last);
    if f != LARGE {
      var added := if f == MINIMUM then Carried(c) else TimeField(prev, m);
      assert Expected(prev, ch, m, c).stamp == (added + last) % TWO_32;
      WrapsBack(m.stamp, last, delta, added);
    }
  }

  /** The reader's times are the sender's on a run exactly when every one of them fits. */
  lemma {:induction false} TimesExact(prev: Option<Sent>, ch: nat, msgs: seq<Message>, c: Channel)
    requires AllSendable(prev, msgs) && c.time == LastTime(prev)
    ensures |ExpectedRun(prev, ch, msgs, c)| == |msgs|
    ensures (forall i | 0 <= i < |msgs| :: ExpectedRun(prev, ch, msgs, c)[i].stamp == msgs[i].stamp)
       <==> AllTimesFit(prev, msgs, Carried(c))
    decreases msgs
  {
    if msgs != [] {
      var prev', c' := Some(Remember(msgs[0])), Settled(prev, msgs[0], c);
      var out, out' := ExpectedRun(prev, ch, msgs, c), ExpectedRun(prev', ch, msgs[1..], c');
      RunRecovered(prev, ch, msgs, c);
      TimeExact(prev, ch, msgs[0], c);
      if TimeFits(prev, msgs[0], Carried(c)) {
        TimesExact(prev', ch, msgs[1..], c');
        assert forall i | 1 <= i < |msgs| :: out[i] == out'[i - 1] && msgs[i] == msgs[1..][i - 1];
        assert forall i | 0 <= i < |msgs| - 1 :: out'[i] == out[i + 1] && msgs[1..][i] == msgs[i + 1];
      }
    }
  }

  /** A new message behind a type 3 header: the reader adds the last time field once more. */
  lemma RepeatedTimeIsAddedAgain(ch: nat)
    ensures var a := Message(LARGE, 8, 40, 0, [1]);
      var b := Message(MEDIUM, 8, 40, 0, [2]);
      && AllSendable(None, [a, b])
      && |ExpectedRun(None, ch, [a, b], FRESH)| == 2
      && ExpectedRun(None, ch, [a, b], FRESH)[1].stamp == 80
  {
    var a, b := Message(LARGE, 8, 40, 0, [1]), Message(MEDIUM, 8, 40, 0, [2]);
    assert [a, b][1..] == [b] && [b][1..] == [];
    assert Compressed(Some(Remember(a)), b) == MINIMUM;
    var c := Settled(None, a, FRESH);
    assert c.time == 40 && Carried(c) == 40;
    assert ExpectedRun(Some(Remember(a)), ch, [b], c) == [Expected(Some(Remember(a)), ch, b, c)];
  }

  //
  // All channels
  //

  /** The chunks of one channel, picked from an interleaving. */
  function Project(schedule: seq<(nat, seq<byte>)>, ch: nat): seq<seq<byte>> {
    if schedule == [] then []
    else (if schedule[0].0 == ch then [schedule[0].1] else []) + Project(schedule[1..], ch)
  }

  function Wire(schedule: seq<(nat, seq<byte>)>): seq<byte> {
    if schedule == [] then [] else schedule[0].1 + Wire(schedule[1..])
  }

  /** Reads chunks as long as they are complete and keeps the whole messages. */
  function ReadAll(channels: map<nat, Channel>, chunkSize: nat, input: seq<byte>): seq<Received>
    requires AllValid(channels)
    decreases |input|
  {
    var r := ReadChunk(channels, chunkSize, input);
    if r.None? then []
    else
      (if r.value.received.whole then [r.value.received] else []) +
      ReadAll(channels[r.value.channel := r.value.after], chunkSize, input[r.value.used..])
  }

  function OnChannel(out: seq<Received>, ch: nat): seq<Received> {
    if out == [] then []
    else (if out[0].channel == ch then [out[0]] else []) + OnChannel(out[1..], ch)
  }

  lemma SliceOfPrefix(s: seq<byte>, t: seq<byte>, i: nat, j: nat)
    requires i <= j <= |s|
    ensures (s + t)[i..j] == s[i..j]
  {}

  /** A chunk reads the same whatever follows it and whatever the other channels hold. */
  lemma ChunkIsLocal(channels: map<nat, Channel>, ch: nat, chunkSize: nat, chunk: seq<byte>, tail: seq<byte>)
    requires AllValid(channels)
    requires var r := ReadChunk(map[ch := At(channels, ch)], chunkSize, chunk);
      r.Some? && r.value.used == |chunk| && r.value.channel == ch
    ensures ReadChunk(channels, chunkSize, chunk + tail) == ReadChunk(map[ch := At(channels, ch)], chunkSize, chunk)
    ensures (chunk + tail)[|chunk|..] == tail
  {
    HeadIsPrefix(chunk, tail);
    var h := ParseHead(chunk).value;
    SliceOfPrefix(chunk, tail, h.length, |chunk|);
  }

  lemma HeadIsPrefix(chunk: seq<byte>, tail: seq<byte>)
    requires ParseHead(chunk).Some?
    ensures ParseHead(chunk + tail) == ParseHead(chunk)
  {
    var b := BasicLength(chunk[0]);
    var n := PacketSize(chunk[0] / 64) - 1;
    SliceOfPrefix(chunk, tail, 0, b);
    SliceOfPrefix(chunk, tail, b, b + n);
    if |chunk| >= b + n + 4 {
      SliceOfPrefix(chunk, tail, b + n, b + n + 4);
    }
  }

  /** Reading off one chunk from the front of the wire. */
  lemma ReadAllStep(channels: map<nat, Channel>, ch: nat, chunkSize: nat, chunk: seq<byte>, tail: seq<byte>)
    requires AllValid(channels)
    requires var r := ReadChunk(map[ch := At(channels, ch)], chunkSize, chunk);
      r.Some? && r.value.used == |chunk| && r.value.channel == ch
    ensures var step := ReadChunk(map[ch := At(channels, ch)], chunkSize, chunk).value;
      && AllValid(channels[ch := step.after])
      && ReadAll(channels, chunkSize, chunk + tail)
        == (if step.received.whole then [step.received] else [])
         + ReadAll(channels[ch := step.after], chunkSize, tail)
      && step.received.channel == ch
  {
    ChunkIsLocal(channels, ch, chunkSize, chunk, tail);
  }

  lemma NothingOnWire(channels: map<nat, Channel>, chunkSize: nat)
    requires AllValid(channels)
    ensures ReadAll(channels, chunkSize, []) == []
  {}

  lemma OnChannelOfConcat(a: seq<Received>, b: seq<Received>, ch: nat)
    requires |a| <= 1
    ensures OnChannel(a + b, ch) == OnChannel(a, ch) + OnChannel(b, ch)
  {
    if a == [] {
      assert a + b == b;
    } else {
      assert (a + b)[1..] == b && a[1..] == [];
    }
  }

  /** Interleaving does not matter: each channel's messages are those its own chunks give. */
  lemma {:induction false} InterleavingRead(channels: map<nat, Channel>, chunkSize: nat,
                                             schedule: seq<(nat, seq<byte>)>, ch: nat)
    requires AllValid(channels)
    requires forall k: nat :: Readable(At(channels, k), k, chunkSize, Project(schedule, k))
    ensures OnChannel(ReadAll(channels, chunkSize, Wire(schedule)), ch)
         == Messages(At(channels, ch), ch, chunkSize, Project(schedule, ch))
    decreases schedule
  {
    hide ReadChunk;
    if schedule == [] {
      NothingOnWire(channels, chunkSize);
    } else {
      var k, chunk, rest := schedule[0].0, schedule[0].1, schedule[1..];
      assert Readable(At(channels, k), k, chunkSize, Project(schedule, k));
      assert Project(schedule, k) == [chunk] + Project(rest, k);
      assert Project(schedule, k)[1..] == Project(rest, k);
      assert forall j: nat | j != k :: Project(schedule, j) == Project(rest, j);
      var step := ReadChunk(map[k := At(channels, k)], chunkSize, chunk).value;
      ReadAllStep(channels, k, chunkSize, chunk, Wire(rest));
      var channels' := channels[k := step.after];
      forall j: nat ensures Readable(At(channels', j), j, chunkSize, Project(rest, j)) {
        assert Readable(At(channels, j), j, chunkSize, Project(schedule, j));
      }
      InterleavingRead(channels', chunkSize, rest, ch);
      OnChannelOfConcat(if step.received.whole then [step.received] else [],
                        ReadAll(channels', chunkSize, Wire(rest)), ch);
    }
  }

  /**
   Chunk reassembly. Messages are sent on any channels, each channel's chunks in order but the
   channels interleaved in any way. The reader hands out, per channel, exactly the messages sent;
   and exactly the runs whose time fields fit have all their times restored.
   */
  lemma Reassembly(schedule: seq<(nat, seq<byte>)>, msgs: map<nat, seq<Message>>, chunkSize: nat, ch: nat)
    requires chunkSize >= 1 && ch in msgs
    requires forall k | k in msgs ::
      ValidChannel(k) && AllSendable(None, msgs[k])
      && Project(schedule, k) == ChannelChunks(None, k, msgs[k], chunkSize)
    requires forall k: nat | k !in msgs :: Project(schedule, k) == []
    ensures var out := OnChannel(ReadAll(map[], chunkSize, Wire(schedule)), ch);
      && Recovered(out, ch, msgs[ch])
      && ((forall i | 0 <= i < |out| :: out[i].stamp == msgs[ch][i].stamp) <==> AllTimesFit(None, msgs[ch], 0))
  {
    hide Readable, Messages, ReadAll;
    forall k: nat
      ensures Readable(At(map[], k), k, chunkSize, Project(schedule, k))
    {
      if k in msgs {
        ChannelRead(None, k, msgs[k], FRESH, chunkSize);
      } else {
        NothingToRead(FRESH, k, chunkSize);
      }
    }
    InterleavingRead(map[], chunkSize, schedule, ch);
    ChannelRead(None, ch, msgs[ch], FRESH, chunkSize);
    RunRecovered(None, ch, msgs[ch], FRESH);
    TimesExact(None, ch, msgs[ch], FRESH);
  }

  //
  // One sender
  //

  function PrevOf(refs: map<nat, Sent>, ch: nat): Option<Sent> {
    if ch in refs then Some(refs[ch]) else None
  }

  /** The wire after a sequence of sends, each whole before the next. */
  function SendRun(refs: map<nat, Sent>, chunkSize: nat, sends: seq<(nat, Message)>): seq<byte>
    requires chunkSize >= 1 && RunSendable(refs, sends)
    decreases sends
  {
    if sends == [] then []
    else
      var (ch, m) := sends[0];
      Flatten(Chunks(PrevOf(refs, ch), ch, m, chunkSize)) + SendRun(refs[ch := Remember(m)], chunkSize, sends[1..])
  }

  predicate RunSendable(refs: map<nat, Sent>, sends: seq<(nat, Message)>)
    decreases sends
  {
    sends == [] ||
    var (ch, m) := sends[0];
    ValidChannel(ch) && Sendable(PrevOf(refs, ch), m) && RunSendable(refs[ch := Remember(m)], sends[1..])
  }

  ghost predicate AllInStep(refs: map<nat, Sent>, channels: map<nat, Channel>) {
    forall k: nat :: InStep(PrevOf(refs, k), At(channels, k))
  }

  /** Reading all chunks of a message off the front of the wire. */
  lemma {:induction false} ReadAllChunks(channels: map<nat, Channel>, ch: nat, chunkSize: nat, chunks: seq<seq<byte>>,
                                          tail: seq<byte>)
    requires AllValid(channels) && chunks != []
    requires Readable(At(channels, ch), ch, chunkSize, chunks)
    ensures var c' := After(At(channels, ch), ch, chunkSize, chunks);
      && AllValid(channels[ch := c'])
      && ReadAll(channels, chunkSize, Flatten(chunks) + tail)
        == Messages(At(channels, ch), ch, chunkSize, chunks) + ReadAll(channels[ch := c'], chunkSize, tail)
    decreases chunks
  {
    hide ReadChunk, ReadAll;
    var step := ReadChunk(map[ch := At(channels, ch)], chunkSize, chunks[0]).value;
    var rest := Flatten(chunks[1..]) + tail;
    assert Flatten(chunks) + tail == chunks[0] + rest;
    ReadAllStep(channels, ch, chunkSize, chunks[0], rest);
    var channels' := channels[ch := step.after];
    if chunks[1..] == [] {
      assert rest == tail;
    } else {
      ReadAllChunks(channels', ch, chunkSize, chunks[1..], tail);
      var c' := After(step.after, ch, chunkSize, chunks[1..]);
      assert channels'[ch := c'] == channels[ch := c'];
    }
  }

  /** With one sender the messages come back in the very order they were sent. */
  lemma {:induction false} InOrder(refs: map<nat, Sent>, channels: map<nat, Channel>, chunkSize: nat,
                                    sends: seq<(nat, Message)>)
    requires chunkSize >= 1 && AllValid(channels)
    requires RunSendable(refs, sends) && AllInStep(refs, channels)
    ensures var out := ReadAll(channels, chunkSize, SendRun(refs, chunkSize, sends));
      && |out| == |sends|
      && forall i | 0 <= i < |sends| :: out[i].whole && out[i].channel == sends[i].0
           && out[i].kind == sends[i].1.kind && out[i].body == sends[i].1.body
    decreases sends
  {
    hide ReadChunk, ReadAll, Chunks;
    if sends == [] {
      NothingOnWire(channels, chunkSize);
    } else {
      var (ch, m) := sends[0];
      var prev, c := PrevOf(refs, ch), At(channels, ch);
      var chunks, refs' := Chunks(prev, ch, m, chunkSize), refs[ch := Remember(m)];
      assert InStep(prev, c);
      MessageRead(prev, ch, m, c, chunkSize);
      var tail := SendRun(refs', chunkSize, sends[1..]);
      ChunksExist(prev, ch, m, chunkSize);
      ReadAllChunks(channels, ch, chunkSize, chunks, tail);
      var channels' := channels[ch := After(c, ch, chunkSize, chunks)];
      forall k: nat ensures InStep(PrevOf(refs', k), At(channels', k)) {
        assert InStep(PrevOf(refs, k), At(channels, k));
      }
      InOrder(refs', channels', chunkSize, sends[1..]);
    }
  }

  lemma ChunksExist(prev: Option<Sent>, ch: nat, m: Message, chunkSize: nat)
    requires m.format <= 3 && ch < CHANNELS && chunkSize >= 1
    ensures Chunks(prev, ch, m, chunkSize) != []
  {}
}
