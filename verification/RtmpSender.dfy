/** The sending half of a connection: header compression and chunking inside the body buffer. */
module RtmpSender {
  import opened Arithmetic
  import opened Bytes
  import opened RtmpChunkFormat

  const MAX_HEADER_SIZE := 18

  /** The joint buffer is big enough, and is used just when the body needs more than one chunk. */
  lemma BufferRoom(header: seq<byte>, ch: nat, body: seq<byte>, chunkSize: nat)
    requires ch < CHANNELS && chunkSize >= 1
    ensures ChunkCount(|body|, chunkSize) > 1 <==> |body| > chunkSize
    ensures |body| > chunkSize ==>
      |Flatten(ChunksAfter(header, ch, body, chunkSize))|
        < ChunkCount(|body|, chunkSize) * (ExtraBytes(ch) + 1) + |body| + |header|
  {
    if |body| == 0 {
      DivUnique(chunkSize - 1, chunkSize, 0, chunkSize - 1);
    } else if |body| <= chunkSize {
      CountOne(|body|, chunkSize);
    } else {
      BufferSlack(header, ch, body, chunkSize);
      CountStep(|body|, chunkSize);
      CountPositive(|body| - chunkSize, chunkSize);
    }
  }

  lemma {:induction false} CountPositive(n: nat, chunkSize: nat)
    requires n >= 1 && chunkSize >= 1
    ensures ChunkCount(n, chunkSize) >= 1
    decreases n
  {
    if n > chunkSize {
      CountPositive(n - chunkSize, chunkSize);
      CountStep(n, chunkSize);
    } else {
      CountOne(n, chunkSize);
    }
  }

  /** The bytes still to be sent: nothing once no header is pending. */
  ghost function Left(header: seq<byte>, ch: nat, rest: seq<byte>, chunkSize: nat): seq<byte>
    requires ch < CHANNELS && chunkSize >= 1
  {
    if header == [] then [] else Flatten(ChunksAfter(header, ch, rest, chunkSize))
  }

  /** The unsent part of the body still lies in memory as it was given. */
  ghost predicate Intact(memory: array<byte>, from: nat, rest: seq<byte>)
    reads memory
  {
    from + |rest| <= memory.Length && memory[from..from + |rest|] == rest
  }

  lemma IntactTail(memory: array<byte>, from: nat, rest: seq<byte>, n: nat)
    requires Intact(memory, from, rest) && n <= |rest|
    ensures Intact(memory, from, rest[..n]) && Intact(memory, from + n, rest[n..])
  {
    var whole := memory[from..from + |rest|];
    assert memory[from..from + n] == whole[..n] && memory[from + n..from + |rest|] == whole[n..];
  }

  lemma TimeFieldIs(prev: Option<Sent>, m: Message, last: u32)
    requires last == if prev.Some? && m.format != LARGE then prev.value.stamp else 0
    ensures var t := (m.stamp - last) % TWO_32; TimeField(prev, m) == if t >= 0xff_ffff then 0 else t
  {}

  lemma NothingLeft(ch: nat, rest: seq<byte>, chunkSize: nat)
    requires ch < CHANNELS && chunkSize >= 1
    ensures Left([], ch, rest, chunkSize) == []
  {}

  lemma UnfoldChunks(header: seq<byte>, ch: nat, rest: seq<byte>, chunkSize: nat)
    requires ch < CHANNELS && chunkSize >= 1
    requires header != []
    ensures var n := Min(chunkSize, |rest|);
      Left(header, ch, rest, chunkSize) == header + rest[..n] +
        Left(if rest[n..] == [] then [] else BasicHeader(MINIMUM, ch), ch, rest[n..], chunkSize)
  {
    var n := Min(chunkSize, |rest|);
    var next := BasicHeader(MINIMUM, ch);
    assert ChunksAfter(header, ch, rest, chunkSize)[1..] == Continuation(ch, rest[n..], chunkSize);
    var after := Continuation(ch, rest[n..], chunkSize);
    assert Flatten(ChunksAfter(header, ch, rest, chunkSize)) == (header + rest[..n]) + Flatten(after);
    if rest[n..] != [] {
      assert next != [];
      assert after == ChunksAfter(next, ch, rest[n..], chunkSize);
    }
  }

  /** A packet as the caller hands it over. `memory` holds the body from `bodyAt`; no memory means no body. */
  class Packet {
    var format: nat
    var kind: byte
    var channel: nat
    var stamp: u32
    var info: int
    var size: nat
    var memory: array?<byte>
    var bodyAt: nat

    /** The body has the header room that packet allocation puts in front of it. */
    ghost predicate Valid()
      reads this, memory
    {
      && channel < CHANNELS
      && (memory == null ==> size == 0)
      && (memory != null ==> MAX_HEADER_SIZE <= bodyAt && bodyAt + size <= memory.Length)
    }

    ghost function Meaning(): Message
      requires Valid()
      reads this, memory
    {
      Message(format, kind, stamp, info, if memory == null then [] else memory[bodyAt..bodyAt + size])
    }
  }

  class Sender {
    var chunkSize: nat
    var refs: map<nat, Sent>
    var wire: seq<byte>
    var connected: bool

    ghost predicate Valid()
      reads this
    {
      chunkSize >= 1
    }

    function Prev(ch: nat): Option<Sent>
      reads this
    {
      if ch in refs then Some(refs[ch]) else None
    }

    /** Writes all of `data`, or nothing when the connection is gone. */
    method WriteN(data: seq<byte>) returns (ok: bool)
      modifies this`wire
      ensures ok == connected
      ensures wire == if ok then old(wire) + data else old(wire)
    {
      ok := connected;
      if ok { wire := wire + data; }
    }

    /** Stores `data` at `at` and returns the position behind it. */
    method Put(memory: array<byte>, at: nat, data: seq<byte>, ghost header: nat) returns (next: nat)
      requires header <= at && at + |data| <= memory.Length
      modifies memory
      ensures next == at + |data|
      ensures memory[header..next] == old(memory[header..at]) + data
      ensures forall i | next <= i < memory.Length :: memory[i] == old(memory[i])
    {
      next := at + |data|;
      forall i | 0 <= i < |data| {
        memory[at + i] := data[i];
      }
    }

    method PlaceBasicHeader(memory: array<byte>, header: nat, format: nat, ch: nat) returns (next: nat)
      requires format <= 3 && ch < CHANNELS && header + 1 + ExtraBytes(ch) <= memory.Length
      modifies memory
      ensures next == header + 1 + ExtraBytes(ch)
      ensures memory[header..next] == BasicHeader(format, ch)
      ensures forall i | next <= i < memory.Length :: memory[i] == old(memory[i])
    {
      var cSize := ExtraBytes(ch);
      var c := format * 64 + (if cSize == 0 then ch else if cSize == 1 then 0 else 1);
      next := Put(memory, header, [c], header);
      if cSize > 0 {
        next := Put(memory, next, [(ch - 64) % 256], header);
        if cSize == 2 {
          next := Put(memory, next, [(ch - 64) / 256], header);
        }
      }
    }

    method PlaceFields(memory: array<byte>, at: nat, format: nat, t: nat, size: nat, kind: byte, info: int)
      returns (next: nat)
      requires format <= 3 && at + PacketSize(format) - 1 <= memory.Length
      modifies memory
      ensures next == at + PacketSize(format) - 1
      ensures memory[..at] == old(memory[..at])
      ensures memory[at..next] == MessageFields(format, t, size, kind, info)
      ensures forall i | next <= i < memory.Length :: memory[i] == old(memory[i])
    {
      next := at;
      if format < MINIMUM {
        next := Put(memory, next, Be24(t), 0);
      }
      if format < SMALL {
        next := Put(memory, next, Be24(size), 0);
        next := Put(memory, next, [kind], 0);
      }
      if format < MEDIUM {
        next := Put(memory, next, Le32(info), 0);
      }
      assert memory[..next] == old(memory[..at]) + MessageFields(format, t, size, kind, info);
    }

    /** Lays the full header in memory just in front of `bodyAt`. */
    method PlaceHeader(memory: array<byte>, bodyAt: nat, ch: nat,
                       format: nat, t: nat, size: nat, kind: byte, info: int) returns (header: nat)
      requires ch < CHANNELS && format <= 3
      requires PacketSize(format) + ExtraBytes(ch) <= bodyAt <= memory.Length
      modifies memory
      ensures header + PacketSize(format) + ExtraBytes(ch) == bodyAt
      ensures memory[header..bodyAt] == BasicHeader(format, ch) + MessageFields(format, t, size, kind, info)
      ensures forall i | bodyAt <= i < memory.Length :: memory[i] == old(memory[i])
    {
      header := bodyAt - PacketSize(format) - ExtraBytes(ch);
      var h := PlaceBasicHeader(memory, header, format, ch);
      ghost var front := memory[..h];
      var end := PlaceFields(memory, h, format, t, size, kind, info);
      assert memory[header..h] == front[header..];
      assert memory[header..end] == memory[header..h] + memory[h..end];
    }

    /** Picks the header format and the time the new time field counts from. */
    method Compress(p: Packet, prev: Option<Sent>) returns (last: u32)
      requires p.Valid()
      modifies p`format
      ensures p.format == Compressed(prev, old(p.Meaning()))
      ensures last == if prev.Some? && old(p.format) != LARGE then prev.value.stamp else 0
    {
      last := 0;
      if prev.Some? && p.format != LARGE {
        if prev.value.size == p.size && prev.value.kind == p.kind && p.format == MEDIUM {
          p.format := SMALL;
        }
        if prev.value.stamp == p.stamp && p.format == SMALL {
          p.format := MINIMUM;
        }
        last := prev.value.stamp;
      }
    }

    /**
     Sends one message. Continuation headers are written over body bytes that have already
     been copied out, so the body buffer is spent afterwards, yet what goes out is exactly
     the header and the slices of the body as it was given.
     */
    method SendPacket(p: Packet) returns (ok: bool)
      requires Valid() && p.Valid()
      modifies this, p`format, p.memory
      ensures Valid() && chunkSize == old(chunkSize) && connected == old(connected)
      ensures ok == (connected && old(p.format) <= 3)
      ensures !ok ==> wire == old(wire) && refs == old(refs)
      ensures ok ==>
        wire == old(wire) + Flatten(Chunks(old(Prev(p.channel)), p.channel, old(p.Meaning()), chunkSize))
      ensures ok ==> refs == old(refs)[p.channel := Remember(old(p.Meaning()))]
    {
      hide Chunks, TimeField, Compressed;
      ghost var m := p.Meaning();
      var prev := Prev(p.channel);
      var last := Compress(p, prev);
      if p.format > 3 { return false; }
      var t := (p.stamp - last) % TWO_32;
      if t >= 0xff_ffff { t := 0; }
      assert t == TimeField(prev, m) by { TimeFieldIs(prev, m, last); }
      ok := Transmit(p, t, prev, m);
      if !ok { return; }
      refs := refs[p.channel := Sent(p.size, p.kind, p.stamp)];
    }

    /** Builds the header in front of the body, or in a scratch buffer when there is none, and sends the chunks. */
    method Transmit(p: Packet, t: nat, ghost prev: Option<Sent>, ghost m: Message) returns (ok: bool)
      requires Valid() && p.Valid() && m.format <= 3
      requires p.Meaning() == m.(format := Compressed(prev, m)) && t == TimeField(prev, m)
      modifies this`wire, p.memory
      ensures ok == connected
      ensures wire == old(wire) + if ok then Flatten(Chunks(prev, p.channel, m, chunkSize)) else []
    {
      var memory: array<byte>, buffer: nat;
      if p.memory != null {
        memory, buffer := p.memory, p.bodyAt;
      } else {
        memory, buffer := new byte[MAX_HEADER_SIZE], 6 + PacketSize(p.format);
      }
      assert Intact(memory, buffer, m.body);
      var header := PlaceHeader(memory, buffer, p.channel, p.format, t, p.size, p.kind, p.info);
      ok := SendChunks(p, memory, header, buffer, m.body);
    }

    /** Copies one chunk to the joint buffer when there is one, and to the wire otherwise. */
    method Emit(memory: array<byte>, header: nat, hSize: nat, nChunk: nat, joint: array<byte>, toff: nat, many: bool,
                ghost hdr: seq<byte>, ghost rest: seq<byte>) returns (ok: bool, next: nat)
      requires header + hSize + nChunk <= memory.Length && joint != memory && nChunk <= |rest|
      requires memory[header..header + hSize] == hdr
      requires Intact(memory, header + hSize, rest[..nChunk])
      requires many ==> toff + nChunk + hSize <= joint.Length
      modifies this`wire, joint
      ensures many ==> ok && next == toff + nChunk + hSize && wire == old(wire)
      ensures many ==> joint[..next] == old(joint[..toff]) + (hdr + rest[..nChunk])
      ensures !many ==> ok == connected && next == toff
      ensures !many ==> wire == old(wire) + if ok then hdr + rest[..nChunk] else []
    {
      var len := nChunk + hSize;
      assert memory[header..header + len]
          == memory[header..header + hSize] + memory[header + hSize..header + len];
      if many {
        forall i | 0 <= i < len { joint[toff + i] := memory[header + i]; }
        ok, next := true, toff + len;
      } else {
        ok := WriteN(memory[header..header + len]);
        next := toff;
      }
    }

    /** The buffer that joins the chunks when there are several of them. */
    method JointBuffer(nSize: nat, hSize: nat, cSize: nat,
                       ghost ch: nat, ghost header: seq<byte>, ghost body: seq<byte>)
      returns (many: bool, joint: array<byte>)
      requires Valid() && ch < CHANNELS && cSize == ExtraBytes(ch) && nSize == |body| && hSize == |header|
      ensures many == (nSize > chunkSize) && fresh(joint)
      ensures many ==> |Flatten(ChunksAfter(header, ch, body, chunkSize))| <= joint.Length
    {
      BufferRoom(header, ch, body, chunkSize);
      var chunks := (nSize + chunkSize - 1) / chunkSize;
      many := chunks > 1;
      var tlen := chunks * (cSize + 1) + nSize + hSize;
      joint := new byte[if many then tlen else 0];
    }

    /** While bytes remain, writes a type 3 basic header over the bytes just sent. */
    method NextHeader(memory: array<byte>, buffer: nat, nSize: nat, ch: nat, cSize: nat, ghost rest: seq<byte>)
      returns (header: nat, hSize: nat, ghost hdr: seq<byte>)
      requires ch < CHANNELS && cSize == ExtraBytes(ch) && cSize < buffer && Intact(memory, buffer, rest)
      modifies memory
      ensures header + hSize == buffer
      ensures hdr == (if nSize == 0 then [] else BasicHeader(MINIMUM, ch)) == memory[header..buffer]
      ensures Intact(memory, buffer, rest) && (nSize > 0 ==> hSize > 0)
    {
      header, hSize, hdr := buffer, 0, [];
      if nSize > 0 {
        header, hSize := buffer - 1 - cSize, 1 + cSize;
        var _ := PlaceBasicHeader(memory, header, MINIMUM, ch);
        hdr := BasicHeader(MINIMUM, ch);
      }
    }

    /** One round of the loop: a chunk goes out and the header of the next one is put in its place. */
    method SendOne(memory: array<byte>, header: nat, hSize: nat, nSize: nat, nChunk: nat, ch: nat, cSize: nat,
                   joint: array<byte>, toff: nat, many: bool, ghost hdr: seq<byte>, ghost rest: seq<byte>)
      returns (ok: bool, toff': nat, header': nat, hSize': nat, ghost hdr': seq<byte>)
      requires Valid() && ch < CHANNELS && cSize == ExtraBytes(ch) && cSize < header + hSize
      requires joint != memory && nSize == |rest| && Intact(memory, header + hSize, rest)
      requires memory[header..header + hSize] == hdr != []
      requires nChunk == Min(chunkSize, nSize)
      requires many ==> toff + |Left(hdr, ch, rest, chunkSize)| <= joint.Length
      modifies this`wire, memory, joint
      ensures ok == (many || connected)
      ensures var piece := hdr + rest[..nChunk];
        && Left(hdr, ch, rest, chunkSize) == piece + Left(hdr', ch, rest[nChunk..], chunkSize)
        && (many ==> wire == old(wire) && toff' == toff + |piece| && joint[..toff'] == old(joint[..toff]) + piece)
        && (!many ==> wire == old(wire) + if ok then piece else [])
      ensures header' + hSize' == header + hSize + nChunk && memory[header'..header' + hSize'] == hdr'
      ensures hdr' == if nSize == nChunk then [] else BasicHeader(MINIMUM, ch)
      ensures nSize > nChunk ==> hSize' > 0
      ensures Intact(memory, header' + hSize', rest[nChunk..])
    {
      hide Left, BasicHeader, Intact;
      UnfoldChunks(hdr, ch, rest, chunkSize);
      IntactTail(memory, header + hSize, rest, nChunk);
      ok, toff' := Emit(memory, header, hSize, nChunk, joint, toff, many, hdr, rest);
      header', hSize', hdr' := NextHeader(memory, header + hSize + nChunk, nSize - nChunk, ch, cSize, rest[nChunk..]);
    }

    method ChunkLoop(memory: array<byte>, header0: nat, hSize0: nat, size: nat, ch: nat,
                     joint: array<byte>, many: bool, ghost body: seq<byte>)
      returns (ok: bool, toff: nat)
      requires Valid() && ch < CHANNELS && size == |body| && hSize0 > ExtraBytes(ch) && joint != memory
      requires Intact(memory, header0 + hSize0, body)
      requires many == (size > chunkSize)
      requires many ==> |Left(memory[header0..header0 + hSize0], ch, body, chunkSize)| <= joint.Length
      modifies this`wire, memory, joint
      ensures ok == (many || connected)
      ensures var sent := Left(old(memory[header0..header0 + hSize0]), ch, body, chunkSize);
        if many then wire == old(wire) && toff == |sent| <= joint.Length && joint[..toff] == sent
        else wire == old(wire) + if ok then sent else []
    {
      hide Left, BasicHeader;
      var cSize := ExtraBytes(ch);
      var header, nSize, hSize, nChunk := header0, size, hSize0, chunkSize;
      ghost var hdr, rest := memory[header0..header0 + hSize0], body;
      ghost var total, emitted: seq<byte> := Left(hdr, ch, body, chunkSize), [];
      toff := 0;
      while nSize + hSize > 0
        invariant 0 <= header && 0 <= nSize == |rest| && 0 <= hSize == |hdr|
        invariant Intact(memory, header + hSize, rest) && cSize < header + hSize
        invariant nSize > 0 ==> hSize > 0
        invariant hSize > 0 ==> nChunk == chunkSize
        invariant memory[header..header + hSize] == hdr
        invariant total == emitted + Left(hdr, ch, rest, chunkSize)
        invariant many ==> toff == |emitted| && |total| <= joint.Length && joint[..toff] == emitted
        invariant many ==> wire == old(wire)
        invariant !many ==> wire == old(wire) + emitted && nSize <= chunkSize
        invariant !many ==> if hSize > 0 then emitted == [] else connected
        decreases nSize, hSize
      {
        if nSize < nChunk { nChunk := nSize; }
        ghost var piece := hdr + rest[..nChunk];
        ok, toff, header, hSize, hdr :=
          SendOne(memory, header, hSize, nSize, nChunk, ch, cSize, joint, toff, many, hdr, rest);
        if !ok { return; }
        nSize, rest := nSize - nChunk, rest[nChunk..];
        emitted := emitted + piece;
      }
      NothingLeft(ch, rest, chunkSize);
      ok := true;
    }

    method SendChunks(p: Packet, memory: array<byte>, header: nat, buffer: nat, ghost body: seq<byte>)
      returns (ok: bool)
      requires Valid() && p.channel < CHANNELS && p.size == |body|
      requires header + ExtraBytes(p.channel) < buffer && Intact(memory, buffer, body)
      modifies this`wire, memory
      ensures ok == connected
      ensures wire == old(wire) + if !ok then [] else
        Flatten(ChunksAfter(old(memory[header..buffer]), p.channel, body, chunkSize))
    {
      ghost var hdr := memory[header..buffer];
      var many, joint := JointBuffer(p.size, buffer - header, ExtraBytes(p.channel), p.channel, hdr, body);
      var toff;
      ok, toff := ChunkLoop(memory, header, buffer - header, p.size, p.channel, joint, many, body);
      if many {
        ok := WriteN(joint[..toff]);
      }
    }
  }
}
