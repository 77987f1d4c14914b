/** Whole transport streams: every packet the multiplexer emits, through a demultiplexer with several parsers. */
module TsStream {
  import opened Bytes
  import opened TsFormat
  import opened TsDemux
  import opened TsMux
  import opened TsRoundTrip

  function PidOf(mem: seq<byte>): nat
    requires |mem| >= 3
  {
    Pid13(mem[1], mem[2])
  }

  function Pid13(high: int, low: int): int { (high * 256 + low) % 0x2000 }

  /** A frame and the PID it came from. */
  datatype Delivery = Delivery(pid: nat, frame: Frame)

  type Parsers = map<nat, Parser>

  ghost predicate PacketFor(parsers: Parsers, k: Packet) {
    PidOf(k) in parsers ==> SanePacket(k, parsers[PidOf(k)].video)
  }

  function Tagged(pid: nat, frames: seq<Frame>): (d: seq<Delivery>)
    ensures |d| == |frames| && forall i | 0 <= i < |d| :: d[i] == Delivery(pid, frames[i])
  {
    seq(|frames|, i requires 0 <= i < |frames| => Delivery(pid, frames[i]))
  }

  /** One packet used up: its parser takes it, packets of other PIDs are skipped. */
  function TakeAny(parsers: Parsers, k: Packet): (r: (seq<Delivery>, Parsers))
    requires PacketFor(parsers, k)
    ensures r.1.Keys == parsers.Keys && forall pid | pid in parsers :: r.1[pid].video == parsers[pid].video
  {
    var pid := PidOf(k);
    if pid in parsers then
      var (frames, p) := Take(parsers[pid], k);
      (Tagged(pid, frames), parsers[pid := p])
    else ([], parsers)
  }

  ghost predicate PacketsFor(parsers: Parsers, ks: seq<Packet>) {
    forall i | 0 <= i < |ks| :: PacketFor(parsers, ks[i])
  }

  function FeedAny(parsers: Parsers, ks: seq<Packet>): (r: (seq<Delivery>, Parsers))
    requires PacketsFor(parsers, ks)
    decreases ks
  {
    if ks == [] then ([], parsers)
    else
      var (now, parsers') := TakeAny(parsers, ks[0]);
      var (later, parsers'') := FeedAny(parsers', ks[1..]);
      (now + later, parsers'')
  }

  function OfPid(ks: seq<Packet>, pid: nat): seq<Packet> {
    if ks == [] then []
    else (if PidOf(ks[0]) == pid then [ks[0]] else []) + OfPid(ks[1..], pid)
  }

  function FramesOf(out: seq<Delivery>, pid: nat): seq<Frame> {
    if out == [] then []
    else (if out[0].pid == pid then [out[0].frame] else []) + FramesOf(out[1..], pid)
  }

  lemma {:induction false} FramesOfConcat(a: seq<Delivery>, b: seq<Delivery>, pid: nat)
    ensures FramesOf(a + b, pid) == FramesOf(a, pid) + FramesOf(b, pid)
  {
    if a == [] {
      assert a + b == b;
    } else {
      assert (a + b)[0] == a[0] && (a + b)[1..] == a[1..] + b;
      FramesOfConcat(a[1..], b, pid);
      var head := if a[0].pid == pid then [a[0].frame] else [];
      assert head + (FramesOf(a[1..], pid) + FramesOf(b, pid)) == head + FramesOf(a[1..], pid) + FramesOf(b, pid);
    }
  }

  lemma {:induction false} FramesOfTagged(frames: seq<Frame>, from: nat, pid: nat)
    ensures FramesOf(Tagged(from, frames), pid) == if from == pid then frames else []
  {
    if frames != [] {
      assert Tagged(from, frames)[1..] == Tagged(from, frames[1..]);
      FramesOfTagged(frames[1..], from, pid);
    }
  }

  lemma {:induction false} OfPidConcat(a: seq<Packet>, b: seq<Packet>, pid: nat)
    ensures OfPid(a + b, pid) == OfPid(a, pid) + OfPid(b, pid)
  {
    if a == [] {
      assert a + b == b;
    } else {
      assert (a + b)[0] == a[0] && (a + b)[1..] == a[1..] + b;
      OfPidConcat(a[1..], b, pid);
      var head := if PidOf(a[0]) == pid then [a[0]] else [];
      assert head + (OfPid(a[1..], pid) + OfPid(b, pid)) == head + OfPid(a[1..], pid) + OfPid(b, pid);
    }
  }

  lemma OfPidCons(k: Packet, rest: seq<Packet>, pid: nat)
    ensures OfPid([k] + rest, pid) == if PidOf(k) == pid then [k] + OfPid(rest, pid) else OfPid(rest, pid)
  {
    assert ([k] + rest)[1..] == rest;
  }

  lemma OfPidNothing(pid: nat)
    ensures OfPid([], pid) == []
  {}

  /** Each parser sees its own packets only: the stream splits by PID. */
  lemma {:induction false} FeedSplits(parsers: Parsers, ks: seq<Packet>, pid: nat)
    requires PacketsFor(parsers, ks) && pid in parsers
    ensures AllSane(OfPid(ks, pid), parsers[pid].video)
    ensures FramesOf(FeedAny(parsers, ks).0, pid) == Feed(parsers[pid], OfPid(ks, pid)).0
    ensures pid in FeedAny(parsers, ks).1 && FeedAny(parsers, ks).1[pid] == Feed(parsers[pid], OfPid(ks, pid)).1
    decreases ks
  {
    hide Take, SanePacket;
    if ks != [] {
      var k, rest := ks[0], ks[1..];
      var (now, parsers') := TakeAny(parsers, k);
      assert PacketFor(parsers, k);
      forall i | 0 <= i < |rest| ensures PacketFor(parsers', rest[i]) {
        assert PacketFor(parsers, ks[i + 1]);
      }
      FeedSplits(parsers', rest, pid);
      FramesOfConcat(now, FeedAny(parsers', rest).0, pid);
      if PidOf(k) in parsers {
        FramesOfTagged(Take(parsers[PidOf(k)], k).0, PidOf(k), pid);
      }
      if PidOf(k) == pid {
        FeedCons(parsers[pid], k, OfPid(rest, pid));
      } else {
        assert OfPid(ks, pid) == OfPid(rest, pid);
      }
    }
  }

  //
  // The packets the multiplexer emits, by PID
  //

  lemma PidOfUnitPacket(u: Unit, left: seq<byte>, first: bool, counter: nat, src4: nat, dst4: nat)
    requires left != [] && counter < 16 && src4 < 4 && dst4 < 4
    ensures var k := UnitPacket(u, left, first, counter, src4, dst4);
      k[0] == 0x47 && PidOf(k) == Pid(u.video)
  {}

  lemma {:induction false} UnitPacketsOfPid(u: Unit, left: seq<byte>, first: bool, counter: nat, src4: nat, dst4: nat,
                                             pid: nat)
    requires counter < 16 && src4 < 4 && dst4 < 4
    ensures var ks := UnitPackets(u, left, first, counter, src4, dst4);
      OfPid(ks, pid) == if pid == Pid(u.video) then ks else []
    decreases |left|
  {
    hide UnitPacket, Room, LayoutOf, PidOf, Pid, OfPid;
    if left == [] {
      OfPidNothing(pid);
    } else {
      var n := Room(|left|, if first then PesLength(u.video) else 0, src4, dst4);
      var k, rest := UnitPacket(u, left, first, counter, src4, dst4),
                     UnitPackets(u, left[n..], false, (counter + 1) % 16, (src4 + n) % 4, dst4);
      PidOfUnitPacket(u, left, first, counter, src4, dst4);
      UnitPacketsOfPid(u, left[n..], false, (counter + 1) % 16, (src4 + n) % 4, dst4, pid);
      OfPidCons(k, rest, pid);
      assert UnitPackets(u, left, first, counter, src4, dst4) == [k] + rest;
    }
  }

  lemma ServicePid(pcr: u64, pid: nat, table: seq<byte>, counter: nat)
    requires counter < 16 && pid < 0x2000 && |table| <= 183
    ensures PidOf(PcrPacket(pcr, counter)) == PCR_PID && PidOf(PsiPacket(pid, table, counter)) == pid
  {
    assert (pid / 256 * 256 + pid % 256) % 0x2000 == pid;
    assert (0x40 + pid / 256) * 256 + pid % 256 == 0x4000 + pid;
  }

  /** The counter the call's payload starts at. */
  function CounterAt(m: Mux, c: Call): (n: nat)
    requires ValidMux(m) && ValidCall(c)
    ensures n < 16
  {
    Counter(m.streams[StreamIndex(c.unit.stream)], c.unit.video)
  }

  function Payload(m: Mux, c: Call): seq<Packet>
    requires ValidMux(m) && ValidCall(c)
  {
    UnitPackets(c.unit, c.unit.raw, true, CounterAt(m, c), c.src4, c.dst4)
  }

  lemma CountersPass(m: Mux, c: Call)
    requires ValidMux(m) && ValidCall(c)
    ensures var u, s := c.unit, m.streams[StreamIndex(c.unit.stream)];
      var s1 := ClockPart(Ticked(m, s, u), u).1;
      && Ticked(m, s, u).pcrCounter < 16 && s1.patCounter < 16 && s1.pmtCounter < 16
      && Counter(TablePart(m, s1, u).1, u.video) == CounterAt(m, c)
  {}

  /** Of the packets of a call, only its payload has an elementary stream's PID. */
  lemma EmitOfPid(m: Mux, c: Call, video: bool)
    requires ValidMux(m) && ValidCall(c)
    ensures OfPid(Emit(m, c).0, Pid(video)) == if c.unit.video == video then Payload(m, c) else []
  {
    hide PcrPacket, PsiPacket, UnitPackets, Tick, ClockDue, TablesDue;
    var u, s := c.unit, m.streams[StreamIndex(c.unit.stream)];
    CountersPass(m, c);
    var (clock, s1) := ClockPart(Ticked(m, s, u), u);
    var (tables, s2) := TablePart(m, s1, u);
    var pid := Pid(video);
    assert OfPid(clock, pid) == [] by {
      if clock != [] { ServicePid(Ticked(m, s, u).pcr, 0, [], Ticked(m, s, u).pcrCounter); }
    }
    assert OfPid(tables, pid) == [] by {
      if tables != [] {
        ServicePid(0, PAT_PID, m.pat, s1.patCounter);
        ServicePid(0, PMT_PID, m.pmt, s1.pmtCounter);
        OfPidConcat([tables[0]], [tables[1]], pid);
        assert tables == [tables[0]] + [tables[1]];
      }
    }
    OfPidConcat(clock, tables, pid);
    OfPidConcat(clock + tables, Payload(m, c), pid);
    UnitPacketsOfPid(u, u.raw, true, CounterAt(m, c), c.src4, c.dst4, pid);
  }

  /** The payload packets of all calls with one kind of unit. */
  function PayloadRun(m: Mux, calls: seq<Call>, video: bool): seq<Packet>
    requires ValidMux(m) && AllValidCalls(calls)
    decreases calls
  {
    if calls == [] then []
    else
      (if calls[0].unit.video == video then Payload(m, calls[0]) else [])
      + PayloadRun(Emit(m, calls[0]).1, calls[1..], video)
  }

  lemma {:induction false} EmitAllOfPid(m: Mux, calls: seq<Call>, video: bool)
    requires ValidMux(m) && AllValidCalls(calls)
    ensures OfPid(EmitAll(m, calls).0, Pid(video)) == PayloadRun(m, calls, video)
    decreases calls
  {
    hide Emit, Payload;
    if calls != [] {
      var (now, m') := Emit(m, calls[0]);
      EmitOfPid(m, calls[0], video);
      EmitAllOfPid(m', calls[1..], video);
      OfPidConcat(now, EmitAll(m', calls[1..]).0, Pid(video));
    }
  }

  /** The frames a run of calls should give: its non-empty units of the kind, in order. */
  function FramesSent(calls: seq<Call>, video: bool): seq<Frame> {
    if calls == [] then []
    else
      var u := calls[0].unit;
      (if u.video == video && u.raw != [] then [Frame(video, u.raw, ReadPts(u))] else [])
      + FramesSent(calls[1..], video)
  }

  predicate AllCarried(calls: seq<Call>, video: bool, max: nat) {
    forall i | 0 <= i < |calls| && calls[i].unit.video == video ::
      var c := calls[i];
      c.src4 < 4 && c.dst4 < 4 && Announced(c.unit) && Carried(c.unit, max, c.src4, c.dst4)
  }

  lemma {:induction false} PayloadRunFed(m: Mux, calls: seq<Call>, video: bool, p: Parser)
    requires ValidMux(m) && AllValidCalls(calls) && AllCarried(calls, video, p.max)
    requires Between(p) && p.video == video
    ensures var ks := PayloadRun(m, calls, video);
      && AllSane(ks, video)
      && Feed(p, ks).0 + Held(Feed(p, ks).1) == Held(p) + FramesSent(calls, video)
      && Between(Feed(p, ks).1)
      && |Held(Feed(p, ks).1)| == Min(1, |Held(p) + FramesSent(calls, video)|)
    decreases calls
  {
    hide Emit, Take, SanePacket, Carried, Started, UnitPackets, ReadPts, Feed, AllSane, Held, Between;
    if calls == [] {
      NothingFed(p);
    } else {
      var c, rest := calls[0], calls[1..];
      var (now, m') := Emit(m, c);
      var u, ks := c.unit, PayloadRun(m', rest, video);
      assert forall i | 0 <= i < |rest| :: rest[i] == calls[i + 1];
      if u.video == video && u.raw != [] {
        UnitFed(p, u, CounterAt(m, c), c.src4, c.dst4);
        var q := Started(p, u, u.raw);
        StartedHolds(p, u);
        assert Held(q) == [Frame(video, u.raw, ReadPts(u))];
        PayloadRunFed(m', rest, video, q);
        RunJoined(p, q, Payload(m, c), ks, FramesSent(rest, video));
      } else {
        NoPayload(m, c);
        assert PayloadRun(m, calls, video) == ks;
        PayloadRunFed(m', rest, video, p);
      }
    }
  }

  lemma NothingFed(p: Parser)
    requires Between(p)
    ensures AllSane([], p.video) && Feed(p, []).0 + Held(Feed(p, []).1) == Held(p) + [] && Feed(p, []).1 == p
    ensures |Held(p)| <= 1
  {
    assert [] + Held(p) == Held(p) + [];
  }

  lemma RunJoined(p: Parser, q: Parser, a: seq<Packet>, b: seq<Packet>, sent: seq<Frame>)
    requires p.video == q.video && AllSane(a, p.video) && AllSane(b, q.video)
    requires Feed(p, a) == (Held(p), q)
    requires Feed(q, b).0 + Held(Feed(q, b).1) == Held(q) + sent
    ensures AllSane(a + b, p.video)
    ensures Feed(p, a + b).0 + Held(Feed(p, a + b).1) == Held(p) + (Held(q) + sent)
    ensures Feed(p, a + b).1 == Feed(q, b).1
  {
    hide Feed, Held;
    FeedConcat(p, a, b);
    assert Held(p) + Feed(q, b).0 + Held(Feed(q, b).1) == Held(p) + (Feed(q, b).0 + Held(Feed(q, b).1));
  }

  lemma NoPayload(m: Mux, c: Call)
    requires ValidMux(m) && ValidCall(c)
    ensures c.unit.raw == [] ==> Payload(m, c) == []
  {}

  lemma StartedHolds(p: Parser, u: Unit)
    requires u.raw != [] && p.video == u.video
    ensures Held(Started(p, u, u.raw)) == [Frame(u.video, u.raw, ReadPts(u))]
    ensures Started(p, u, u.raw).max == p.max && Started(p, u, u.raw).video == p.video
  {}

  /** The parsers that can be enabled: video on its PID, audio on its own. */
  predicate Enabled(parsers: Parsers) {
    && parsers.Keys <= {VIDEO_PID, AUDIO_PID}
    && forall v: bool :: Pid(v) in parsers ==> parsers[Pid(v)] == NewParser(v)
  }

  lemma {:induction false} PacketInItsPid(ks: seq<Packet>, i: nat)
    requires i < |ks|
    ensures ks[i] in OfPid(ks, PidOf(ks[i]))
    decreases ks
  {
    hide PidOf;
    if i > 0 {
      PacketInItsPid(ks[1..], i - 1);
    }
  }

  lemma PacketsBySplit(parsers: Parsers, ks: seq<Packet>)
    requires forall pid | pid in parsers :: AllSane(OfPid(ks, pid), parsers[pid].video)
    ensures PacketsFor(parsers, ks)
  {
    hide SanePacket, PidOf;
    forall i | 0 <= i < |ks| ensures PacketFor(parsers, ks[i]) {
      PacketInItsPid(ks, i);
    }
  }

  lemma KindFed(m: Mux, calls: seq<Call>, video: bool)
    requires ValidMux(m) && AllValidCalls(calls) && AllCarried(calls, video, FRAME_MAX)
    ensures var own := OfPid(EmitAll(m, calls).0, Pid(video));
      && AllSane(own, video)
      && Feed(NewParser(video), own).0 + Held(Feed(NewParser(video), own).1) == FramesSent(calls, video)
      && |Held(Feed(NewParser(video), own).1)| == Min(1, |FramesSent(calls, video)|)
  {
    hide Emit, EmitAll, Take, SanePacket, Feed, OfPid;
    EmitAllOfPid(m, calls, video);
    PayloadRunFed(m, calls, video, NewParser(video));
    assert [] + FramesSent(calls, video) == FramesSent(calls, video);
  }

  /**
   The demultiplexer undoes the multiplexer: from the packets of any run of calls, clock and table
   packets and the other kind's units among them, each parser gives exactly the units of its kind in
   order. A unit is delivered when the next one starts, so the last one is still held at the end.
   */
  lemma DemuxUndoesMux(m: Mux, calls: seq<Call>, parsers: Parsers, video: bool)
    requires ValidMux(m) && AllValidCalls(calls) && Enabled(parsers) && Pid(video) in parsers
    requires forall v: bool :: Pid(v) in parsers ==> AllCarried(calls, v, FRAME_MAX)
    ensures PacketsFor(parsers, EmitAll(m, calls).0)
    ensures var (out, parsers') := FeedAny(parsers, EmitAll(m, calls).0);
      && Pid(video) in parsers'
      && FramesOf(out, Pid(video)) + Held(parsers'[Pid(video)]) == FramesSent(calls, video)
      && |Held(parsers'[Pid(video)])| == Min(1, |FramesSent(calls, video)|)
  {
    hide Emit, EmitAll, Take, SanePacket, Feed, FeedAny, OfPid, FramesOf, FramesSent, AllCarried, Held;
    var ks := EmitAll(m, calls).0;
    forall pid | pid in parsers ensures AllSane(OfPid(ks, pid), parsers[pid].video) {
      var v := pid == VIDEO_PID;
      assert pid == Pid(v);
      KindFed(m, calls, v);
    }
    PacketsBySplit(parsers, ks);
    FeedSplits(parsers, ks, Pid(video));
    KindFed(m, calls, video);
  }
}
