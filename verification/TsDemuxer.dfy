/** The demultiplexer's objects: frame buffers, packet parsers, and the dispatch over PIDs. */
module TsDemuxer {
  import opened Bytes
  import opened TsFormat
  import opened TsDemux
  import opened TsRoundTrip
  import opened TsStream
  import opened TsBuffers

  class AvFrame {
    const data: array<byte>
    var used: nat
    var state: FrameState
    var pts: nat
    var dts: nat

    constructor (size: nat)
      ensures fresh(data) && data.Length == size && used == 0 && state == Init && pts == 0 && dts == 0
    {
      data := new byte[size](_ => 0);
      used, state, pts, dts := 0, Init, 0, 0;
    }

    method Reset()
      modifies this`used, this`state
      ensures state == Init && used == 0
    {
      state, used := Init, 0;
    }
  }

  class PktParser {
    const video: bool
    const frame: AvFrame
    var pesLen: int

    constructor (video: bool)
      ensures this.video == video && fresh(Foot()) && Valid() && Value() == NewParser(video)
    {
      this.video := video;
      frame := new AvFrame(FRAME_MAX);
      pesLen := 0;
    }

    /** The parser, its frame and its frame buffer. */
    ghost function Foot(): set<object> { {this, frame, frame.data} }

    ghost predicate Apart(other: PktParser) {
      this != other && frame != other.frame && frame.data != other.frame.data
    }

    ghost predicate Valid()
      reads this, frame
    {
      frame.used <= frame.data.Length
    }

    ghost function Value(): Parser
      requires Valid()
      reads this, frame, frame.data
    {
      Parser(video, frame.data.Length, frame.state, frame.data[..frame.used], frame.pts, frame.dts, pesLen)
    }

    /** Copies packet bytes into the frame if its buffer is strictly larger. */
    method Append(mem: array<byte>, from: nat, to: nat)
      requires Valid() && from <= to <= mem.Length && mem != frame.data
      modifies frame`used, frame.data
      ensures Valid() && Value() == TsDemux.Append(old(Value()), mem[from..to])
    {
      var n := to - from;
      if frame.used < frame.data.Length - n {
        ghost var before := frame.data[..frame.used];
        var i := 0;
        while i < n
          invariant 0 <= i <= n && frame.used + n < frame.data.Length
          invariant frame.used == old(frame.used) && frame.data[..frame.used] == before
          invariant frame.data[frame.used..frame.used + i] == mem[from..from + i]
          modifies frame.data
        {
          frame.data[frame.used + i] := mem[from + i];
          i := i + 1;
        }
        frame.used := frame.used + n;
        assert frame.data[..frame.used] == before + mem[from..to];
      }
    }

    /** The part of an audio packet the announced length still covers. */
    method AppendAudio(mem: array<byte>, from: nat, to: nat)
      requires Valid() && from <= to <= mem.Length && mem != frame.data && !video
      modifies this, frame`used, frame.data
      ensures Valid() && Value() == TsDemux.AppendAudio(old(Value()), mem[from..to])
    {
      var n := to - from;
      if pesLen > 0 {
        if n > pesLen {
          n := pesLen;
          pesLen := 0;
        } else {
          pesLen := pesLen - n;
        }
      }
      assert mem[from..from + n] == mem[from..to][..n];
      Append(mem, from, from + n);
    }

    method ReadStamps(mem: array<byte>, base: nat, at: nat)
      requires Valid() && base + PACKET <= mem.Length && base + at + 9 <= mem.Length && StampsInside(mem[base..], at)
      requires mem != frame.data
      modifies frame`pts, frame`dts
      ensures Valid() && Value() == Stamped(old(Value()), mem[base..], at)
    {
      var b := base + at;
      ghost var whole := mem[base..];
      assert whole[at + 7] == mem[b + 7];
      if mem[b + 7] / 128 != 0 {
        assert whole[at + 9..at + 14] == mem[b + 9..b + 14];
        frame.pts := if video then PtsOf(mem[b + 9..b + 14]) else DtsOf(mem[b + 9..b + 14]);
      }
      if mem[b + 7] / 64 % 2 == 1 {
        assert whole[at + 14..at + 19] == mem[b + 14..b + 19];
        frame.dts := DtsOf(mem[b + 14..b + 19]);
      }
    }

    /** The packet at `base`. */
    method Process(mem: array<byte>, base: nat)
      requires Valid() && base <= mem.Length && Sane(mem[base..], video) && mem != frame.data
      modifies this, frame, frame.data
      ensures Valid() && Value() == TsDemux.Process(old(Value()), mem[base..])
    {
      hide Begin, Stamped, PesField, PtsOf, DtsOf, TsDemux.Append, TsDemux.AppendAudio;
      ghost var whole := mem[base..];
      assert |whole| >= PACKET + OVERREAD && PayloadAt(whole) <= PACKET;
      hide Sane, HeaderEnd;
      assert forall i | 0 <= i < PACKET + OVERREAD :: whole[i] == mem[base + i];
      var at := 4;
      if mem[base + 3] / 32 % 2 == 1 {
        at := OffsetPast(mem[base + 4]);
      }
      var b, end := base + at, base + PACKET;
      assert at == PayloadAt(whole) && whole[at..PACKET] == mem[b..end];
      var id := if video then VIDEO_ID else AUDIO_ID;
      assert StartsUnit(whole, at, id) <==> mem[b] == 0 && mem[b + 1] == 0 && mem[b + 2] == 1 && mem[b + 3] == id;
      hide PayloadAt, StartsUnit;
      if mem[b] == 0 && mem[b + 1] == 0 && mem[b + 2] == 1 && mem[b + 3] == id {
        if frame.used > 0 {
          frame.state := Complete;
        } else {
          StartUnit(mem, base, at);
        }
      } else if video {
        if frame.state == Filling { Append(mem, b, end); }
      } else {
        AppendAudio(mem, b, end);
      }
    }

    /** Hands the frame on and empties it. */
    method Release() returns (f: Frame)
      requires Valid()
      modifies frame
      ensures Valid() && f == FrameIn(old(Value())) && Value() == ResetFrame(old(Value()))
    {
      f := Frame(video, frame.data[..frame.used], frame.pts);
      frame.Reset();
    }

    /** The first packet of a unit. */
    method StartUnit(mem: array<byte>, base: nat, at: nat)
      requires Valid() && base <= mem.Length && Sane(mem[base..], video) && mem != frame.data
      requires at == PayloadAt(mem[base..]) && StartsUnit(mem[base..], at, StreamId(video))
      modifies this, frame, frame.data
      ensures Valid()
      ensures Value() == Begin(Stamped(old(Value()), mem[base..], at), mem[base..], HeaderEnd(mem[base..], at),
                               PesField(mem[base..][at + 4], mem[base..][at + 5]))
    {
      hide Begin, Stamped, PtsOf, DtsOf, PesField;
      ghost var whole, p := mem[base..], Value();
      assert forall i | 0 <= i < PACKET + OVERREAD :: whole[i] == mem[base + i];
      var b := base + at;
      if video { frame.state := Filling; }
      pesLen := PesField(mem[b + 4], mem[b + 5]);
      StampedLeavesTheRest(p, Value(), whole, at);
      ReadStamps(mem, base, at);
      var header: int := mem[b + 8];
      assert HeaderEnd(whole, at) == at + 9 + header <= PACKET;
      hide Sane, StartsUnit, StampsInside, HeaderEnd, PayloadAt;
      FirstSlice(mem, base, at, header);
    }

    method FirstSlice(mem: array<byte>, base: nat, at: nat, header: nat)
      requires Valid() && base + PACKET <= mem.Length && at + 9 + header <= PACKET && mem != frame.data
      requires at == PayloadAt(mem[base..]) && (video ==> frame.state == Filling)
      modifies this, frame`used, frame.data
      ensures Valid()
      ensures Value() == Begin(old(Value()), mem[base..], at + 9 + header, old(pesLen))
    {
      var body, end := base + at + 9 + header, base + PACKET;
      assert mem[base..][at + 9 + header..PACKET] == mem[body..end];
      if video {
        Append(mem, body, end);
      } else {
        if pesLen != 0 { pesLen := pesLen - (header + 3); }
        AppendAudio(mem, body, end);
      }
    }
  }

  /** Reading time stamps and starting a unit do not depend on the order they are done in. */
  lemma StampedLeavesTheRest(p: Parser, q: Parser, mem: seq<byte>, at: nat)
    requires |mem| >= PACKET && at + 9 <= |mem| && StampsInside(mem, at)
    requires q == p.(state := q.state, pesLen := q.pesLen) && (!p.video ==> q.state == p.state)
    ensures forall body: nat, n: int | body <= PACKET ::
      Begin(Stamped(p, mem, at), mem, body, n) == Begin(Stamped(q, mem, at), mem, body, n)
  {
    hide PtsOf, DtsOf, StampsInside;
  }

  /** A read buffer: `used` bytes read into it, those before `rd` parsed. */
  class TsBuffer {
    const data: array<byte>
    var rd: nat
    var used: nat

    constructor (size: nat)
      ensures fresh(data) && data.Length == size && rd == 0 && used == 0
    {
      data := new byte[size](_ => 0);
      rd, used := 0, 0;
    }
  }

  function Joined(out: seq<Delivery>, rest: (seq<Delivery>, Parsers)): (seq<Delivery>, Parsers) {
    (out + rest.0, rest.1)
  }

  lemma JoinFirst(rest: (seq<Delivery>, Parsers))
    ensures Joined([], rest) == rest
  {
    assert [] + rest.0 == rest.0;
  }

  lemma JoinNext(out: seq<Delivery>, d: Delivery, rest: (seq<Delivery>, Parsers))
    ensures Joined(out, ([d] + rest.0, rest.1)) == Joined(out + [d], rest)
  {
    assert out + ([d] + rest.0) == out + [d] + rest.0;
  }

  lemma JoinLast(out: seq<Delivery>, after: Parsers)
    ensures Joined(out, ([], after)) == (out, after)
  {
    assert out + [] == out;
  }

  /** Every parser has a frame and a frame buffer of its own, in `repr`. */
  ghost predicate Owned(parsers: map<nat, PktParser>, repr: set<object>)
    reads repr
  {
    && (forall pid | pid in parsers :: parsers[pid].Foot() <= repr && parsers[pid].Valid())
    && (forall p, q | p in parsers && q in parsers && p != q :: parsers[p].Apart(parsers[q]))
  }

  lemma OneMoreOwned(parsers: map<nat, PktParser>, repr: set<object>, pid: nat, parser: PktParser)
    requires Owned(parsers, repr) && parser.Valid() && parser.Foot() !! repr
    ensures Owned(parsers[pid := parser], repr + parser.Foot())
  {
    hide PktParser.Valid;
  }

  class Demux {
    var parsers: map<nat, PktParser>
    ghost var repr: set<object>

    constructor ()
      ensures Valid() && parsers == map[] && repr == {}
    {
      parsers, repr := map[], {};
    }

    ghost predicate Valid()
      reads this, repr
    {
      this !in repr && Owned(parsers, repr)
    }

    ghost function Values(): (v: Parsers)
      requires Valid()
      reads this, repr
      ensures v.Keys == parsers.Keys && forall pid | pid in parsers :: v[pid].video == parsers[pid].video
    {
      map pid | pid in parsers :: parsers[pid].Value()
    }

    method EnableElemStream(pid: nat, video: bool)
      requires Valid()
      modifies this
      ensures Valid() && Values() == old(Values())[pid := NewParser(video)]
      ensures fresh(repr - old(repr))
    {
      hide NewParser, PktParser.Value, PktParser.Valid, Valid, Values;
      var parser := new PktParser(video);
      Register(pid, parser);
    }

    method Register(pid: nat, parser: PktParser)
      requires Valid() && parser.Valid() && parser.Foot() !! repr && this !in parser.Foot()
      modifies this
      ensures Valid() && repr == old(repr) + parser.Foot()
      ensures Values() == old(Values())[pid := parser.Value()]
    {
      hide PktParser.Value, PktParser.Valid, Values, Owned;
      ghost var now := Values()[pid := parser.Value()];
      EachValue();
      OneMoreOwned(parsers, repr, pid, parser);
      parsers, repr := parsers[pid := parser], repr + parser.Foot();
      ValuesAre(now);
    }

    lemma EachValue()
      requires Valid()
      ensures forall p | p in parsers :: parsers[p].Foot() <= repr && parsers[p].Value() == Values()[p]
    {
      hide PktParser.Value, PktParser.Valid;
    }

    lemma ValuesAre(v: Parsers)
      requires Valid() && v.Keys == parsers.Keys && forall pid | pid in parsers :: v[pid] == parsers[pid].Value()
      ensures Values() == v
    {
      hide PktParser.Value, PktParser.Valid;
    }

    /** Hands the packet at `rd` to the parser of its PID; true when that completes a frame. */
    method Dispatch(buf: TsBuffer, pid: nat) returns (complete: bool)
      requires Valid() && pid in parsers && buf.data !in repr && buf !in repr
      requires buf.rd <= buf.data.Length && Sane(buf.data[buf.rd..], parsers[pid].video)
      modifies repr
      ensures Valid() && parsers == old(parsers) && repr == old(repr)
      ensures Values() == old(Values())[pid := Process(old(Values())[pid], buf.data[buf.rd..])]
      ensures complete <==> Values()[pid].state == Complete
    {
      hide Process, Sane, PktParser.Value, PktParser.Valid;
      ghost var before := Values();
      assert forall p | p in parsers :: before[p] == parsers[p].Value();
      hide Values;
      parsers[pid].Process(buf.data, buf.rd);
      ValuesAre(before[pid := Process(before[pid], buf.data[buf.rd..])]);
      complete := StateOf(parsers[pid]) == Complete;
    }

    function StateOf(p: PktParser): (s: FrameState)
      reads p.frame
      ensures p.Valid() ==> s == p.Value().state
    {
      p.frame.state
    }

    /** The buffer is none of the parsers' and can be parsed from where it is read. */
    ghost predicate Ready(buf: TsBuffer)
      reads this, repr, buf, buf.data
    {
      && Valid() && buf.data !in repr && buf !in repr
      && Readable(Kinds(Values()), buf.data[..], buf.rd, buf.used)
    }

    /** What parsing the rest of the buffer comes to. */
    ghost function Outcome(buf: TsBuffer): Parsed
      requires Ready(buf)
      reads this, repr, buf, buf.data
    {
      TsBuffers.Parse(Values(), buf.data[..], buf.rd, buf.used)
    }

    /** The packet at `rd`: either it completes a frame and stays unread, or reading moves past it. */
    method TakePacket(buf: TsBuffer) returns (pid: Option<nat>)
      requires Ready(buf) && buf.rd < buf.used
      modifies repr, buf`rd
      ensures Ready(buf) && parsers == old(parsers) && repr == old(repr)
      ensures buf.rd == if pid.Some? then old(buf.rd) else old(buf.rd) + PACKET
      ensures old(Outcome(buf)) == if pid.Some? then Parsed(pid, Values(), buf.rd) else Outcome(buf)
    {
      hide Sane, Process, PidOf, Valid, Values, Owned, TsBuffers.Parse, Readable;
      ParseStep(Values(), buf.data[..], buf.rd, buf.used);
      assert buf.data[..][buf.rd..] == buf.data[buf.rd..];
      hide Kinds;
      pid := TakeOwn(buf, PidOf(buf.data[buf.rd..]));
      assert buf.data[..] == old(buf.data[..]);
    }

    /** Of the PID `id`, which may have no parser. */
    method TakeOwn(buf: TsBuffer, id: nat) returns (pid: Option<nat>)
      requires Valid() && buf.data !in repr && buf !in repr && buf.rd <= buf.data.Length
      requires id in parsers ==> Sane(buf.data[buf.rd..], parsers[id].video)
      modifies repr, buf`rd
      ensures Valid() && parsers == old(parsers) && repr == old(repr)
      ensures Values() == if id !in parsers then old(Values())
                          else old(Values())[id := Process(old(Values())[id], old(buf.data[buf.rd..]))]
      ensures pid == if id in parsers && Values()[id].state == Complete then Some(id) else None
      ensures buf.rd == if pid.Some? then old(buf.rd) else old(buf.rd) + PACKET
    {
      hide Sane, Process, Valid, Values, Owned;
      assert this !in repr by { Outside(); }
      var complete := false;
      if id in parsers { complete := Dispatch(buf, id); }
      pid := MoveOn(buf, id, complete);
    }

    lemma Outside()
      requires Valid()
      ensures this !in repr
    {}

    method MoveOn(buf: TsBuffer, id: nat, complete: bool) returns (pid: Option<nat>)
      requires Valid() && buf !in repr
      modifies buf`rd
      ensures Valid() && Values() == old(Values())
      ensures pid == if complete then Some(id) else None
      ensures buf.rd == if complete then old(buf.rd) else old(buf.rd) + PACKET
    {
      hide Owned;
      pid := if complete then Some(id) else None;
      if !complete { buf.rd := buf.rd + PACKET; }
    }

    /** Parses up to the first packet that completes a frame, which is left unread; or to the end. */
    method Parse(buf: TsBuffer) returns (pid: Option<nat>)
      requires Ready(buf)
      modifies repr, buf`rd
      ensures Ready(buf) && parsers == old(parsers) && repr == old(repr)
      ensures Parsed(pid, Values(), buf.rd) == old(Outcome(buf))
    {
      assert this !in repr && buf !in repr;
      ghost var expected := Outcome(buf);
      while buf.rd < buf.used
        invariant Ready(buf) && parsers == old(parsers) && repr == old(repr) && Outcome(buf) == expected
      {
        hide Ready, Outcome;
        pid := TakePacket(buf);
        if pid.Some? { return; }
      }
      ParseEnd(Values(), buf.data[..], buf.rd, buf.used);
      pid := None;
    }

    /** Hands a completed frame on and empties it. */
    method Deliver(pid: nat) returns (d: Delivery)
      requires Valid() && pid in parsers
      modifies repr
      ensures Valid() && parsers == old(parsers) && repr == old(repr)
      ensures d == Delivery(pid, FrameIn(old(Values())[pid]))
      ensures Values() == old(Values())[pid := ResetFrame(old(Values())[pid])]
    {
      hide PktParser.Value, PktParser.Valid;
      ghost var before := Values();
      assert forall p | p in parsers :: before[p] == parsers[p].Value();
      hide Values;
      var frame := parsers[pid].Release();
      d := Delivery(pid, frame);
      ValuesAre(before[pid := ResetFrame(before[pid])]);
    }

    /** What draining the rest of the buffer comes to. */
    ghost function Total(buf: TsBuffer): (seq<Delivery>, Parsers)
      requires Ready(buf)
      reads this, repr, buf, buf.data
    {
      TsBuffers.Drain(Values(), buf.data[..], buf.rd, buf.used)
    }

    /** Will the next packet complete a frame? */
    ghost predicate AboutToComplete(buf: TsBuffer)
      requires Ready(buf)
      reads this, repr, buf, buf.data
    {
      Completes(Values(), buf.data[..], buf.rd, buf.used)
    }

    /** One round of the caller: parse, and if a frame came out hand it on and empty it. */
    method NextFrame(buf: TsBuffer) returns (d: Option<Delivery>)
      requires Ready(buf)
      modifies repr, buf`rd
      ensures Ready(buf) && parsers == old(parsers) && repr == old(repr)
      ensures d.None? ==> old(Total(buf)) == ([], Values())
      ensures d.Some? ==> old(Total(buf)) == ([d.value] + Total(buf).0, Total(buf).1)
      ensures d.Some? ==> old(buf.rd) <= buf.rd < buf.used && !AboutToComplete(buf)
      ensures d.Some? && buf.rd == old(buf.rd) ==> old(AboutToComplete(buf))
    {
      assert this !in repr && buf !in repr;
      ghost var mem := buf.data[..];
      var pid := Parse(buf);
      if pid.Some? {
        ResetCompletesNothing(Values(), mem, buf.rd, buf.used, pid.value);
        hide TsBuffers.Parse, Completes, Readable, Valid, Values, Kinds, FrameIn, ResetFrame, PidOf;
        var delivery := Deliver(pid.value);
        d := Some(delivery);
      } else {
        d := None;
      }
    }

    /** The caller's loop over one buffer: every completed frame is handed on and emptied. */
    method Drain(buf: TsBuffer) returns (out: seq<Delivery>)
      requires Ready(buf)
      modifies repr, buf`rd
      ensures Ready(buf) && parsers == old(parsers) && repr == old(repr)
      ensures (out, Values()) == old(Total(buf))
    {
      assert this !in repr && buf !in repr;
      hide Total, AboutToComplete, Valid, Values, Readable, Joined;
      out := [];
      ghost var expected := Total(buf);
      JoinFirst(Total(buf));
      var more := true;
      while more
        invariant Ready(buf) && parsers == old(parsers) && repr == old(repr)
        invariant expected == if more then Joined(out, Total(buf)) else (out, Values())
        decreases more, buf.used - buf.rd, AboutToComplete(buf)
      {
        var d := NextFrame(buf);
        if d.None? {
          JoinLast(out, Values());
          more := false;
        } else {
          JoinNext(out, d.value, Total(buf));
          out := out + [d.value];
        }
      }
    }
  }
}
