/** The receiving half of a connection: one chunk per call, reassembled through per-channel state. */
module RtmpReader {
  import opened Bytes
  import opened RtmpChunkFormat

  /**
   A packet being received. `stamp` is the time field as read while `absolute` tells whether it
   counts from zero; `got` is the part of the body that has arrived.
   */
  datatype Packet = Packet(stamp: u32, absolute: bool, kind: byte, info: int, size: nat, got: seq<byte>)

  const BLANK := Packet(0, false, 0, 0, 0, [])

  /** What the reader keeps per channel: the last packet, and the absolute time it ended at. */
  datatype Channel = Channel(ref: Option<Packet>, time: u32)

  const FRESH := Channel(None, 0)

  /** What a call hands to its caller: whole messages carry their absolute time. */
  datatype Received = Received(channel: nat, whole: bool, stamp: u32, kind: byte, info: int, size: nat, body: seq<byte>)

  /** The chunk header as it lies on the wire: how many bytes it takes and what they say. */
  datatype Head = Head(format: nat, channel: nat, fields: seq<byte>, stamp: Option<u32>, length: nat)

  function BasicLength(first: byte): nat {
    if first % 64 == 0 then 2 else if first % 64 == 1 then 3 else 1
  }

  function ChannelOf(basic: seq<byte>): (ch: nat)
    requires |basic| >= 1 && |basic| == BasicLength(basic[0])
    ensures ch < CHANNELS
  {
    if |basic| == 2 then basic[1] + 64 else if |basic| == 3 then Channel3(basic[1], basic[2]) else basic[0] % 64
  }

  function Channel3(low: int, high: int): int { high * 256 + low + 64 }

  function ParseHead(input: seq<byte>): (h: Option<Head>)
    ensures h.Some? ==> h.value.format <= 3 && h.value.channel < CHANNELS
    ensures h.Some? ==> 1 <= h.value.length <= |input| && |h.value.fields| == PacketSize(h.value.format) - 1
    ensures h.Some? && h.value.format < MINIMUM ==> h.value.stamp.Some?
  {
    if |input| == 0 || |input| < BasicLength(input[0]) then None
    else
      var b := BasicLength(input[0]);
      var ch := ChannelOf(input[..b]);
      var format := input[0] / 64;
      var n := PacketSize(format) - 1;
      if |input| < b + n then None
      else
        var fields := input[b..b + n];
        if format == MINIMUM then Some(Head(format, ch, fields, None, b))
        else
          var t := Int24(fields);
          if t != 0xff_ffff then Some(Head(format, ch, fields, Some(t), b + n))
          else if |input| < b + n + 4 then None
          else Some(Head(format, ch, fields, Some(Int32(input[b + n..b + n + 4])), b + n + 4))
  }

  /**
   * The packet the body bytes go to: the channel's last one, with the fields this header carries. Without one, what
   * the header does not carry stays as it is in the caller's packet, `own`.
   */
  function Opened(h: Head, ref: Option<Packet>, own: Packet): (p: Packet)
    requires ref.Some? ==> |ref.value.got| <= ref.value.size
    requires |own.got| <= own.size
    ensures |p.got| <= p.size
    requires h.format <= 3 && |h.fields| == PacketSize(h.format) - 1
    requires h.format < MINIMUM ==> h.stamp.Some?
  {
    var p := if h.format == LARGE then own.(absolute := true) else if ref.Some? then ref.value else own;
    var p := if h.format < MINIMUM then p.(stamp := h.stamp.value) else p;
    var p := if h.format < SMALL then p.(size := Int24(h.fields[3..]), kind := h.fields[6], got := []) else p;
    if h.format == LARGE then p.(info := SignedLe32(h.fields[7..])) else p
  }

  /** The packet with its next slice of body: as much as a chunk holds, never more than is missing. */
  function SliceLength(p: Packet, chunkSize: nat): nat
    requires |p.got| <= p.size
  {
    Min(chunkSize, p.size - |p.got|)
  }

  function Filled(p: Packet, slice: seq<byte>): Packet { p.(got := p.got + slice) }

  /** The absolute time of a whole message. */
  function AbsoluteTime(p: Packet, time: u32): u32 {
    if p.absolute then p.stamp else (p.stamp + time) % TWO_32
  }

  function Stored(p: Packet, time: u32): Channel {
    if |p.got| == p.size then Channel(Some(p.(got := [], absolute := false)), AbsoluteTime(p, time))
    else Channel(Some(p), time)
  }

  function Delivered(ch: nat, p: Packet, time: u32): Received {
    var whole := |p.got| == p.size;
    Received(ch, whole, if whole then AbsoluteTime(p, time) else p.stamp, p.kind, p.info, p.size, p.got)
  }

  predicate ChannelValid(c: Channel) {
    c.ref.Some? ==> |c.ref.value.got| <= c.ref.value.size
  }

  datatype Step = Step(used: nat, channel: nat, after: Channel, received: Received)

  function At(channels: map<nat, Channel>, ch: nat): Channel {
    if ch in channels then channels[ch] else FRESH
  }

  ghost predicate AllValid(channels: map<nat, Channel>) {
    forall ch | ch in channels :: ChannelValid(channels[ch])
  }

  /** One call of the reader, with a blank packet, on the bytes there are; None when they run out inside the chunk. */
  function ReadChunk(channels: map<nat, Channel>, chunkSize: nat, input: seq<byte>): (r: Option<Step>)
    requires AllValid(channels)
    ensures r.Some? ==> 1 <= r.value.used <= |input| && ChannelValid(r.value.after)
  {
    var h := ParseHead(input);
    if h.None? then None
    else
      var c := At(channels, h.value.channel);
      var p := Opened(h.value, c.ref, BLANK);
      var n := SliceLength(p, chunkSize);
      var used := h.value.length + n;
      if |input| < used then None
      else
        var p := Filled(p, input[h.value.length..used]);
        Some(Step(used, h.value.channel, Stored(p, c.time), Delivered(h.value.channel, p, c.time)))
  }

  class Reader {
    var chunkSize: nat
    var channels: map<nat, Channel>
    var input: seq<byte>

    ghost predicate Valid()
      reads this
    {
      AllValid(channels)
    }

    /** Takes exactly `n` bytes, or fails. */
    method ReadN(n: nat) returns (ok: bool, data: seq<byte>)
      modifies this`input
      ensures ok == (n <= |old(input)|)
      ensures ok ==> data == old(input)[..n] && input == old(input)[n..]
      ensures !ok ==> data == [] && input == []
    {
      ok := n <= |input|;
      if ok {
        data, input := input[..n], input[n..];
      } else {
        data, input := [], [];
      }
    }

    /** Reads the one to three bytes of the basic header. */
    method ReadBasic() returns (ok: bool, hbuf: seq<byte>, ch: nat)
      modifies this`input
      ensures ok == (|old(input)| > 0 && BasicLength(old(input)[0]) <= |old(input)|)
      ensures ok ==> |hbuf| == BasicLength(old(input)[0]) && old(input) == hbuf + input && ch == ChannelOf(hbuf)
    {
      var more;
      ch := 0;
      ok, hbuf := ReadN(1);
      if !ok { return; }
      ch := hbuf[0] % 64;
      if ch == 0 {
        ok, more := ReadN(1);
        if !ok { return; }
        hbuf := hbuf + more;
        var low: int := hbuf[1];
        ch := low + 64;
      } else if ch == 1 {
        ok, more := ReadN(2);
        if !ok { return; }
        hbuf := hbuf + more;
        ch := Channel3(hbuf[1], hbuf[2]);
      }
    }

    method ReadHead() returns (ok: bool, h: Head)
      modifies this`input
      ensures ok == ParseHead(old(input)).Some?
      ensures ok ==> h == ParseHead(old(input)).value && input == old(input)[h.length..]
    {
      h := Head(0, 0, [], None, 0);
      var hbuf, more, fields, ch;
      ok, hbuf, ch := ReadBasic();
      if !ok { return; }
      var format := hbuf[0] / 64;
      var nSize := PacketSize(format) - 1;
      ok, fields := ReadN(nSize);
      if !ok { return; }
      assert old(input) == hbuf + fields + input;
      h := Head(format, ch, fields, None, |hbuf| + nSize);
      if nSize >= 3 {
        var t := Int24(fields);
        if t == 0xff_ffff {
          ok, more := ReadN(4);
          if !ok { return; }
          assert old(input) == hbuf + fields + more + input;
          h := h.(stamp := Some(Int32(more)), length := h.length + 4);
        } else {
          h := h.(stamp := Some(t));
        }
      }
    }

    method ReadPacket() returns (ok: bool, received: Received)
      requires Valid()
      modifies this`channels, this`input
      ensures Valid()
      ensures var r := ReadChunk(old(channels), chunkSize, old(input));
        && ok == r.Some?
        && (ok ==> received == r.value.received && input == old(input)[r.value.used..])
        && (ok ==> channels == old(channels)[r.value.channel := r.value.after])
        && (!ok ==> channels == old(channels))
    {
      hide ParseHead, ChannelOf, Opened;
      received := Received(0, false, 0, 0, 0, 0, []);
      var h, slice;
      ok, h := ReadHead();
      if !ok { return; }
      var c := At(channels, h.channel);
      var p := Opened(h, c.ref, BLANK);
      var nToRead, nChunk := p.size - |p.got|, chunkSize;
      if nToRead < nChunk { nChunk := nToRead; }
      ok, slice := ReadN(nChunk);
      if !ok { return; }
      assert slice == old(input)[h.length..h.length + nChunk];
      p := p.(got := p.got + slice);
      channels := channels[h.channel := Channel(Some(p), c.time)];
      received := Received(h.channel, false, p.stamp, p.kind, p.info, p.size, p.got);
      if |p.got| == p.size {
        var stamp := if p.absolute then p.stamp else (p.stamp + c.time) % TWO_32;
        received := received.(whole := true, stamp := stamp);
        channels := channels[h.channel := Channel(Some(p.(got := [], absolute := false)), stamp)];
      }
    }
  }
}
