/** The reader as it runs: a caller's buffer, and a slop buffer for what does not fit there. */
module FlvReader {
  import opened Bytes
  import opened Memory
  import opened FlvStream

  const READ_IGNORE := 0
  const READ_EOF := -1
  const READ_COMPLETE := -3

  /** Writes a tag; the room is as counted before, so no part of it is refused. */
  method WriteTag(out: array<byte>, at: nat, e: Event, resume: nat)
    requires e.Media? && at + |e.body| + 15 <= out.Length
    modifies out
    ensures out[at..at + |e.body| + 15] == Tag(e, resume)
    ensures OnlyWithin(out, at, at + |e.body| + 15)
  {
    hide TagHead, Be32;
    var n := |e.body|;
    var length := Be32(11 + n);
    WriteHead(out, at, e, resume);
    label Head:
    CopyBytes(out, at + 11, e.body);
    assert out[at..at + 11] == old@Head(out[at..at + 11]);
    Joins(out, at, at + 11, at + 11 + n);
    label Body:
    CopyBytes(out, at + 11 + n, length);
    assert out[at..at + 11 + n] == old@Body(out[at..at + 11 + n]);
    Joins(out, at, at + 11 + n, at + 15 + n);
  }

  method WriteHead(out: array<byte>, at: nat, e: Event, resume: nat)
    requires e.Media? && at + 11 <= out.Length
    modifies out
    ensures out[at..at + 11] == TagHead(e, resume)
    ensures OnlyWithin(out, at, at + 11)
  {
    hide Be24;
    var t := (resume + e.timestamp) % TWO_32;
    ghost var h := TagHead(e, resume);
    var n24, t24, z24 := Be24(|e.body|), Be24(t), Be24(0);
    ThreeOctets(|e.body|);
    ThreeOctets(t);
    ThreeOctets(0);
    assert h == [e.kind] + n24 + t24 + [t / 0x100_0000] + z24;
    out[at] := e.kind;
    CopyBytes(out, at + 1, n24);
    CopyBytes(out, at + 4, t24);
    out[at + 7] := t / 0x100_0000;
    CopyBytes(out, at + 8, z24);
    assert out[at + 1..at + 4] == n24 && out[at + 4..at + 7] == t24 && out[at + 8..at + 11] == z24;
    assert out[at..at + 1] == [e.kind] && out[at + 7..at + 8] == [t / 0x100_0000];
    Joins(out, at, at + 1, at + 4);
    Joins(out, at, at + 4, at + 7);
    Joins(out, at, at + 7, at + 8);
    Joins(out, at, at + 8, at + 11);
  }

  lemma ThreeOctets(n: nat)
    ensures |Be24(n)| == 3
  {}

  /** The call came to a whole tag, of which `buf` holds from `at` as much as the room took. */
  predicate Given(buf: array<byte>, at: nat, room: nat, ret: int, tag: seq<byte>)
    requires at + room <= buf.Length
    reads buf
  {
    ret == |tag| && buf[at..at + Min(ret, room)] == tag[..Min(ret, room)]
  }

  class MediaReader {
    var events: seq<Event>
    var slop: array?<byte>
    var bufpos: nat
    var buflen: nat
    var status: int
    const resume: nat

    ghost predicate Valid()
      reads this, slop
    {
      && (slop != null ==> bufpos + buflen <= slop.Length)
      && (status == 0 || status == READ_EOF || status == READ_COMPLETE)
      && (status != 0 ==> slop == null)
    }

    ghost function Value(): State
      requires Valid()
      reads this, slop
    {
      State(if slop == null then [] else slop[bufpos..bufpos + buflen], events,
            if status == 0 then Going else if status == READ_EOF then Ended else Completed)
    }

    constructor (events: seq<Event>, resume: nat)
      ensures Valid() && Value() == State([], events, Going) && this.resume == resume
    {
      this.events, this.resume := events, resume;
      slop, bufpos, buflen, status := null, 0, 0, 0;
    }

    /**
     * Takes one message from the session. A tag that would not fit the caller's room with four octets to spare is
     * built in the slop buffer, and copied from there as far as the room goes.
     */
    method ReadOnePacket(buf: array<byte>, at: nat, room: nat) returns (ret: int)
      requires Valid() && slop == null && status == 0 && at + room <= buf.Length
      modifies this`events, this`slop, this`bufpos, this`buflen, buf
      ensures Valid() && (slop == null || fresh(slop)) && OnlyWithin(buf, at, at + room)
      ensures events == if old(events) == [] then [] else old(events)[1..]
      ensures old(events) == [] ==> ret == READ_EOF && slop == null
      ensures old(events) != [] && old(events)[0].Complete? ==> ret == READ_COMPLETE && slop == null
      ensures old(events) != [] && old(events)[0].Media? && !Kept(old(events)[0]) ==> ret == READ_IGNORE && slop == null
      ensures old(events) != [] && old(events)[0].Media? && Kept(old(events)[0]) ==>
        && Given(buf, at, room, ret, Tag(old(events)[0], resume))
        && Value().leftover == Tag(old(events)[0], resume)[Min(ret, room)..]
    {
      hide Tag, TagHead;
      if events == [] { return READ_EOF; }
      var e := events[0];
      events := events[1..];
      if e.Complete? { return READ_COMPLETE; }
      if e.kind == VIDEO && |e.body| <= 5 { return READ_IGNORE; }
      if e.kind == AUDIO && |e.body| <= 1 { return READ_IGNORE; }
      ret := |e.body| + 11 + 4;
      if ret + 4 > room {
        Spill(buf, at, room, e, ret);
      } else {
        WriteTag(buf, at, e, resume);
      }
    }

    method Spill(buf: array<byte>, at: nat, room: nat, e: Event, size: nat)
      requires e.Media? && size == |e.body| + 15 && at + room <= buf.Length
      modifies this`slop, this`bufpos, this`buflen, buf
      ensures slop != null && fresh(slop) && bufpos + buflen <= slop.Length
      ensures OnlyWithin(buf, at, at + room)
      ensures Given(buf, at, room, size, Tag(e, resume))
      ensures slop[bufpos..bufpos + buflen] == Tag(e, resume)[Min(size, room)..]
    {
      hide Tag;
      var s := new byte[size + 4];
      WriteTag(s, 0, e, resume);
      var len := if size > room then room else size;
      Inside(s, 0, size, 0, len);
      Inside(s, 0, size, len, size);
      CopyBytes(buf, at, s[..len]);
      slop, bufpos, buflen := s, len, size - len;
    }

    method UseLeftover(buf: array<byte>, size: nat) returns (nRead: nat)
      requires Valid() && status == 0 && slop != null && size <= buf.Length && buf != slop
      modifies this`slop, this`bufpos, this`buflen, buf
      ensures Valid() && (slop == null || slop == old(slop)) && OnlyWithin(buf, 0, size)
      ensures nRead == Min(|old(Value().leftover)|, size) && buf[..nRead] == old(Value().leftover)[..nRead]
      ensures Value().leftover == old(Value().leftover)[nRead..] && (nRead < size ==> slop == null)
    {
      Inside(slop, bufpos, buflen, 0, Min(buflen, size));
      Inside(slop, bufpos, buflen, Min(buflen, size), buflen);
      nRead := TakeLeftover(buf, size);
    }

    method TakeLeftover(buf: array<byte>, size: nat) returns (nRead: nat)
      requires Valid() && status == 0 && slop != null && size <= buf.Length && buf != slop
      modifies this`slop, this`bufpos, this`buflen, buf
      ensures Valid() && nRead == Min(old(buflen), size) && buf[..nRead] == old(slop[bufpos..bufpos + nRead])
      ensures nRead == old(buflen) ==> slop == null
      ensures nRead < old(buflen) ==>
        slop == old(slop) && bufpos == old(bufpos) + nRead && buflen == old(buflen) - nRead
      ensures OnlyWithin(buf, 0, size)
    {
      nRead := buflen;
      if nRead > size { nRead := size; }
      CopyBytes(buf, 0, slop[bufpos..bufpos + nRead]);
      buflen := buflen - nRead;
      if buflen == 0 {
        slop := null;
        bufpos := 0;
      } else {
        bufpos := bufpos + nRead;
      }
    }

    /** Messages that make no tag are passed over, until one does or the stream is over. */
    method ReadSome(buf: array<byte>, at: nat, room: nat) returns (nRead: int)
      requires Valid() && slop == null && status == 0 && at + room <= buf.Length && room > 0
      modifies this`events, this`slop, this`bufpos, this`buflen, buf
      ensures Valid() && (slop == null || fresh(slop)) && OnlyWithin(buf, at, at + room)
      ensures var f := Fetch(old(events), resume);
        && events == f.rest
        && (f.Over? ==> slop == null && nRead == if f.status.Ended? then READ_EOF else READ_COMPLETE)
        && (f.Fetched? ==> Given(buf, at, room, nRead, f.tag) && Value().leftover == f.tag[Min(nRead, room)..])
    {
      hide Tag, Kept;
      while true
        invariant Valid() && slop == null && Fetch(events, resume) == Fetch(old(events), resume)
        invariant OnlyWithin(buf, at, at + room)
        modifies this`events, this`slop, this`bufpos, this`buflen, buf
        decreases |events|
      {
        nRead := ReadOnePacket(buf, at, room);
        if nRead == 0 { continue; }
        break;
      }
    }

    /** One call of the caller's; `total` counts what it was given. */
    method Read(buf: array<byte>, request: nat) returns (total: int)
      requires Valid() && request <= buf.Length && buf != slop
      modifies this, slop, buf
      ensures Valid() && 0 <= total <= request && (slop == null || slop == old(slop) || fresh(slop))
      ensures (buf[..total], Value()) == FlvStream.Read(old(Value()), request, resume)
      ensures OnlyWithin(buf, 0, request)
    {
      hide FlvStream.Read, Fetch, Tag, Kept;
      total := 0;
      ghost var s := Value();
      ReadAlone(s, request, resume);
      if status == READ_EOF || status == READ_COMPLETE { return; }
      var size: int := request;
      var nRead: int := 0;
      if slop != null {
        nRead := UseLeftover(buf, size);
        total := total + nRead;
        size := size - nRead;
      }
      if size > 0 {
        ghost var head := buf[..total];
        assert head == s.leftover;
        ReadOn(s, request, resume, Fetch(events, resume));
        label Taken:
        var given := ReadMore(buf, total, size);
        assert buf[..total] == old@Taken(buf[..total]);
        Joins(buf, 0, total, total + given);
        total := total + given;
      }
    }

    /** Fills the rest of the request; a tag that comes to more than that is counted as far as it was given. */
    method ReadMore(buf: array<byte>, at: nat, room: nat) returns (total: nat)
      requires Valid() && slop == null && status == 0 && at + room <= buf.Length && room > 0
      modifies this, buf
      ensures Valid() && (slop == null || fresh(slop)) && OnlyWithin(buf, at, at + room) && total <= room
      ensures var f := Fetch(old(events), resume);
        && (f.Over? ==> total == 0 && Value() == State([], f.rest, f.status))
        && (f.Fetched? ==> total == Min(|f.tag|, room) && buf[at..at + total] == f.tag[..total])
        && (f.Fetched? ==> Value() == State(f.tag[total..], f.rest, Going))
    {
      hide Fetch, Tag, Kept;
      var size: int := room;
      var sum: int := 0;
      var nRead := ReadSome(buf, at, room);
      if nRead > 0 {
        sum := nRead;
        size := size - nRead;
      }
      if nRead < 0 { status := nRead; }
      if size < 0 { sum := sum + size; }
      total := sum;
    }
  }

  lemma ReadAlone(s: State, size: nat, resume: nat)
    ensures !s.status.Going? ==> FlvStream.Read(s, size, resume) == ([], s)
    ensures s.status.Going? && |s.leftover| >= size ==>
      FlvStream.Read(s, size, resume) == (s.leftover[..size], State(s.leftover[size..], s.events, Going))
  {}

  lemma ReadOn(s: State, size: nat, resume: nat, f: Fetched)
    requires s.status.Going? && |s.leftover| < size && f == Fetch(s.events, resume)
    ensures f.Over? ==> FlvStream.Read(s, size, resume) == (s.leftover, State([], f.rest, f.status))
    ensures f.Fetched? ==> var k := Min(|f.tag|, size - |s.leftover|);
      FlvStream.Read(s, size, resume) == (s.leftover + f.tag[..k], State(f.tag[k..], f.rest, Going))
  {}
}
