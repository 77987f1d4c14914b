/** The octets a message is sent as, said without the functions that make them (section 5.3.1 of RTMP 1.0). */
module RtmpOctets {
  import opened Arithmetic
  import opened Bytes
  import opened RtmpChunkFormat

  //
  // The header
  //

  /** The message repeats the size and the kind of the last one. */
  predicate Repeats(prev: Sent, m: Message) { prev.size == |m.body| && prev.kind == m.kind }

  /**
   * The type in the header's first octet. With a last message to refer to, type 1 is kept exactly if size or kind
   * differ; and of the others it is type 3 exactly if the time repeats.
   */
  predicate TypeSent(prev: Option<Sent>, m: Message, sent: nat) {
    if prev.None? || m.format == 0 || m.format == 3 then sent == m.format
    else
      && 1 <= sent <= 3
      && (sent == 1 <==> m.format == 1 && !Repeats(prev.value, m))
      && (sent == 3 <==> (m.format == 2 || Repeats(prev.value, m)) && prev.value.stamp == m.stamp)
  }

  /** Octets that name the channel: one, or the first is 0 or 1 and one or two more follow. */
  function ChannelLength(ch: nat): nat { if ch < 64 then 1 else if ch < 320 then 2 else 3 }

  predicate NamesChannel(h: seq<byte>, ch: nat)
    requires |h| >= ChannelLength(ch)
  {
    if ch < 64 then h[0] % 64 == ch
    else if ch < 320 then h[0] % 64 == 0 && 64 + Number2(0, h[1]) == ch
    else h[0] % 64 == 1 && 64 + Number2(h[2], h[1]) == ch
  }

  /** How far the time is from that of the last message, or for a full header from zero, in 32 bits. */
  function Elapsed(prev: Option<Sent>, m: Message): u32 {
    if prev.None? || m.format == 0 then m.stamp
    else if m.stamp >= prev.value.stamp then m.stamp - prev.value.stamp
    else m.stamp - prev.value.stamp + 0x1_0000_0000
  }

  /** Three octets of time, or zeroes if it takes more; three of size and the kind; four of the number, low first. */
  predicate HasFields(f: seq<byte>, format: nat, prev: Option<Sent>, m: Message) {
    && |f| == (if format == 0 then 11 else if format == 1 then 7 else if format == 2 then 3 else 0)
    && (format <= 2 ==>
          if Elapsed(prev, m) < 0xff_ffff then Number3(f[0], f[1], f[2]) == Elapsed(prev, m)
          else f[0] == f[1] == f[2] == 0)
    && (format <= 1 ==> Number3(f[3], f[4], f[5]) == |m.body| && f[6] == m.kind)
    && (format == 0 ==> Number4(f[10], f[9], f[8], f[7]) == m.info % 0x1_0000_0000)
  }

  lemma FieldIs(prev: Option<Sent>, m: Message)
    ensures TimeField(prev, m) == if Elapsed(prev, m) < 0xff_ffff then Elapsed(prev, m) else 0
  {
    if prev.Some? && m.format != LARGE && m.stamp < prev.value.stamp {
      DivUnique(m.stamp - prev.value.stamp, TWO_32, -1, Elapsed(prev, m));
    }
  }

  lemma ThreeDigits(v: nat)
    requires v < TWO_24
    ensures var b := Be24(v); |b| == 3 && Number3(b[0], b[1], b[2]) == v
  {
    Be24Int24(v);
  }

  lemma FourDigits(info: int)
    ensures var b := Le32(info); |b| == 4 && Number4(b[3], b[2], b[1], b[0]) == info % 0x1_0000_0000
  {
    var v1 := info / 256;
    var v2 := v1 / 256;
    var v3 := v2 / 256;
    DivUnique(info, 0x1_0000, v2, v1 % 256 * 256 + info % 256);
    DivUnique(info, 0x100_0000, v3, v2 % 256 * 0x1_0000 + v1 % 256 * 256 + info % 256);
    DivUnique(info, TWO_32, v3 / 256, v3 % 256 * 0x100_0000 + v2 % 256 * 0x1_0000 + v1 % 256 * 256 + info % 256);
  }

  lemma FieldsInOrder(f: nat, t: nat, size: nat, kind: byte, info: int)
    requires f <= 3
    ensures var s, a, b, c := MessageFields(f, t, size, kind, info), Be24(t), Be24(size), Le32(info);
      && |a| == |b| == 3 && |c| == 4
      && |s| == (if f == 0 then 11 else if f == 1 then 7 else if f == 2 then 3 else 0)
      && (f <= 2 ==> s[0] == a[0] && s[1] == a[1] && s[2] == a[2])
      && (f <= 1 ==> s[3] == b[0] && s[4] == b[1] && s[5] == b[2] && s[6] == kind)
      && (f == 0 ==> s[7] == c[0] && s[8] == c[1] && s[9] == c[2] && s[10] == c[3])
  {
    assert |Be24(t)| == |Be24(size)| == 3 && |Le32(info)| == 4;
    hide Be24, Le32;
  }

  lemma FieldsSayMessage(f: nat, prev: Option<Sent>, m: Message)
    requires f <= 3 && |m.body| < TWO_24
    ensures HasFields(MessageFields(f, TimeField(prev, m), |m.body|, m.kind, m.info), f, prev, m)
  {
    var t := TimeField(prev, m);
    FieldIs(prev, m);
    ThreeDigits(t);
    ThreeDigits(|m.body|);
    FourDigits(m.info);
    ThreeZeroes();
    FieldsInOrder(f, t, |m.body|, m.kind, m.info);
    hide MessageFields, TimeField, Be24, Le32, Elapsed, Number3, Number4;
  }

  lemma ThreeZeroes()
    ensures Be24(0) == [0, 0, 0]
  {}

  lemma BasicSays(f: nat, ch: nat)
    requires f <= 3 && ValidChannel(ch)
    ensures var b := BasicHeader(f, ch);
      |b| == ChannelLength(ch) && b[0] / 64 == f && NamesChannel(b, ch)
  {}

  /** Every header: its type, its channel, and its fields, octet by octet. */
  lemma HeaderOctets(prev: Option<Sent>, ch: nat, m: Message)
    requires m.format <= 3 && ValidChannel(ch) && |m.body| < TWO_24
    ensures var h, at := Header(prev, ch, m), ChannelLength(ch);
      && |h| >= at && NamesChannel(h, ch)
      && TypeSent(prev, m, h[0] / 64)
      && HasFields(h[at..], h[0] / 64, prev, m)
  {
    var f := Compressed(prev, m);
    var h, b := Header(prev, ch, m), BasicHeader(f, ch);
    var fields := MessageFields(f, TimeField(prev, m), |m.body|, m.kind, m.info);
    BasicSays(f, ch);
    FieldsSayMessage(f, prev, m);
    assert TypeSent(prev, m, f);
    hide BasicHeader, MessageFields, Compressed, TimeField, HasFields;
    assert h == b + fields && h[|b|..] == fields;
    assert forall i | 0 <= i < |b| :: h[i] == b[i];
  }

  /** An audio message at a new time, as callers send them. */
  lemma HeaderExample()
    ensures Header(Some(Sent(2, 8, 0)), 4, Message(MEDIUM, 8, 23, 1, [1, 2])) == [0x84, 0, 0, 23]
  {}

  //
  // The chunks
  //

  /** The part of a body chunk `i` carries: as much as a chunk holds, but for the last. */
  function Part(body: seq<byte>, chunkSize: nat, i: nat): seq<byte>
    requires i * chunkSize <= |body|
  {
    body[i * chunkSize..Min(i * chunkSize + chunkSize, |body|)]
  }

  /** A chunk without fields: type 3, the channel, and a part of the body. */
  predicate Continues(chunk: seq<byte>, ch: nat, part: seq<byte>) {
    && |chunk| == ChannelLength(ch) + |part|
    && chunk[0] / 64 == 3 && NamesChannel(chunk, ch)
    && chunk[ChannelLength(ch)..] == part
  }

  lemma OneContinues(ch: nat, part: seq<byte>)
    requires ValidChannel(ch)
    ensures Continues(BasicHeader(MINIMUM, ch) + part, ch, part)
  {
    BasicSays(MINIMUM, ch);
    var b := BasicHeader(MINIMUM, ch);
    hide BasicHeader;
    assert forall i | 0 <= i < |b| :: (b + part)[i] == b[i];
    assert (b + part)[|b|..] == part;
  }

  lemma PartOfRest(body: seq<byte>, chunkSize: nat, i: nat)
    requires chunkSize >= 1 && chunkSize <= |body| && i * chunkSize <= |body| - chunkSize
    ensures (i + 1) * chunkSize == i * chunkSize + chunkSize
    ensures Part(body[chunkSize..], chunkSize, i) == Part(body, chunkSize, i + 1)
  {
    var at := i * chunkSize;
    assert (i + 1) * chunkSize == at + chunkSize;
    SliceOfSlice(body, chunkSize, |body| - chunkSize, at, Min(at + chunkSize, |body| - chunkSize));
    assert body[chunkSize..] == body[chunkSize..chunkSize + (|body| - chunkSize)];
  }

  lemma {:induction false} ContinuationHolds(ch: nat, rest: seq<byte>, chunkSize: nat, i: nat)
    requires ValidChannel(ch) && chunkSize >= 1 && i < |Continuation(ch, rest, chunkSize)|
    ensures i * chunkSize < |rest|
    ensures Continues(Continuation(ch, rest, chunkSize)[i], ch, Part(rest, chunkSize, i))
    ensures i + 1 == |Continuation(ch, rest, chunkSize)| <==> i * chunkSize + chunkSize >= |rest|
    decreases |rest|
  {
    hide BasicHeader, Continues;
    var n := Min(chunkSize, |rest|);
    OneContinues(ch, rest[..n]);
    if i == 0 {
      assert rest[n..] != [] ==> Continuation(ch, rest[n..], chunkSize) != [];
      assert Part(rest, chunkSize, 0) == rest[..n];
    } else {
      assert rest[n..] != [] && n == chunkSize;
      ContinuationHolds(ch, rest[n..], chunkSize, i - 1);
      PartOfRest(rest, chunkSize, i - 1);
    }
  }

  /**
   * The chunks of a message: the first is its header and the first part of its body, each other one carries the next
   * part behind a header of type 3; all parts but the last are as long as a chunk holds.
   */
  lemma ChunksHold(prev: Option<Sent>, ch: nat, m: Message, chunkSize: nat, i: nat)
    requires m.format <= 3 && ValidChannel(ch) && chunkSize >= 1 && i < |Chunks(prev, ch, m, chunkSize)|
    ensures var chunks := Chunks(prev, ch, m, chunkSize);
      && i * chunkSize <= |m.body|
      && (i == 0 ==> chunks[0] == Header(prev, ch, m) + Part(m.body, chunkSize, 0))
      && (i > 0 ==> Continues(chunks[i], ch, Part(m.body, chunkSize, i)))
      && (i + 1 == |chunks| <==> i * chunkSize + chunkSize >= |m.body|)
  {
    hide Header, Continues;
    var n := Min(chunkSize, |m.body|);
    var rest := m.body[n..];
    assert Chunks(prev, ch, m, chunkSize)[1..] == Continuation(ch, rest, chunkSize);
    if i > 0 {
      assert rest != [] && n == chunkSize;
      ContinuationHolds(ch, rest, chunkSize, i - 1);
      PartOfRest(m.body, chunkSize, i - 1);
    }
  }
}
