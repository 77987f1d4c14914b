/** Parsing transport stream packets where they lie in a read buffer. */
module TsBuffers {
  import opened Bytes
  import opened TsFormat
  import opened TsDemux
  import opened TsMux
  import opened TsRoundTrip
  import opened TsStream

  /** The kind of elementary stream expected on each enabled PID. */
  function Kinds(parsers: Parsers): map<nat, bool> { map pid | pid in parsers :: parsers[pid].video }

  /** From `rd` to `used` the buffer holds whole packets whose own length fields stay inside them. */
  predicate Readable(kinds: map<nat, bool>, mem: seq<byte>, rd: nat, used: nat)
    decreases used - rd
  {
    rd >= used ||
    (&& rd + PACKET <= used && used + OVERREAD <= |mem|
     && (PidOf(mem[rd..]) in kinds ==> Sane(mem[rd..], kinds[PidOf(mem[rd..])]))
     && Readable(kinds, mem, rd + PACKET, used))
  }

  /** The outcome of a parse: the PID whose frame is complete, if any, and how far reading got. */
  datatype Parsed = Parsed(pid: Option<nat>, parsers: Parsers, rd: nat)

  lemma KindsKept(parsers: Parsers, pid: nat, p: Parser)
    requires pid in parsers && p.video == parsers[pid].video
    ensures Kinds(parsers[pid := p]) == Kinds(parsers)
  {}

  /** Would the packet at `rd` complete a frame? */
  predicate Completes(parsers: Parsers, mem: seq<byte>, rd: nat, used: nat)
    requires Readable(Kinds(parsers), mem, rd, used)
  {
    rd < used && PidOf(mem[rd..]) in parsers && Process(parsers[PidOf(mem[rd..])], mem[rd..]).state == Complete
  }

  /** Packets are taken until one completes a frame; that one is left in the buffer. */
  function Parse(parsers: Parsers, mem: seq<byte>, rd: nat, used: nat): (r: Parsed)
    requires Readable(Kinds(parsers), mem, rd, used)
    ensures Kinds(r.parsers) == Kinds(parsers)
    ensures rd <= r.rd && Readable(Kinds(parsers), mem, r.rd, used)
    ensures r.pid.Some? ==> r.rd < used && r.pid.value in r.parsers && PidOf(mem[r.rd..]) == r.pid.value
    ensures r.pid.Some? && r.rd == rd ==> Completes(parsers, mem, rd, used)
    ensures r.pid.None? ==> r.rd >= used
    decreases used - rd
  {
    if rd >= used then Parsed(None, parsers, rd)
    else
      var pid := PidOf(mem[rd..]);
      if pid !in parsers then Parse(parsers, mem, rd + PACKET, used)
      else
        var q := Process(parsers[pid], mem[rd..]);
        KindsKept(parsers, pid, q);
        if q.state == Complete then Parsed(Some(pid), parsers[pid := q], rd)
        else Parse(parsers[pid := q], mem, rd + PACKET, used)
  }

  lemma ParseStep(parsers: Parsers, mem: seq<byte>, rd: nat, used: nat)
    requires Readable(Kinds(parsers), mem, rd, used) && rd < used
    ensures rd + PACKET <= |mem| && Readable(Kinds(parsers), mem, rd + PACKET, used)
    ensures var pid := PidOf(mem[rd..]);
      if pid !in parsers then Parse(parsers, mem, rd, used) == Parse(parsers, mem, rd + PACKET, used)
      else
        && Sane(mem[rd..], parsers[pid].video)
        && var parsers' := parsers[pid := Process(parsers[pid], mem[rd..])];
        && Kinds(parsers') == Kinds(parsers)
        && Parse(parsers, mem, rd, used)
           == if parsers'[pid].state == Complete then Parsed(Some(pid), parsers', rd)
              else Parse(parsers', mem, rd + PACKET, used)
  {
    if PidOf(mem[rd..]) in parsers {
      KindsKept(parsers, PidOf(mem[rd..]), Process(parsers[PidOf(mem[rd..])], mem[rd..]));
    }
    hide Process, PidOf, Sane;
  }

  lemma ParseEnd(parsers: Parsers, mem: seq<byte>, rd: nat, used: nat)
    requires rd >= used
    ensures Readable(Kinds(parsers), mem, rd, used) && Parse(parsers, mem, rd, used) == Parsed(None, parsers, rd)
  {}

  lemma ResetCompletesNothing(parsers: Parsers, mem: seq<byte>, rd: nat, used: nat, pid: nat)
    requires pid in parsers
    requires Readable(Kinds(parsers), mem, rd, used) && rd < used && PidOf(mem[rd..]) == pid
    ensures var emptied := parsers[pid := ResetFrame(parsers[pid])];
      Kinds(emptied) == Kinds(parsers) && !Completes(emptied, mem, rd, used)
  {
    KindsKept(parsers, pid, ResetFrame(parsers[pid]));
  }

  /** The caller's loop: parse, deliver the completed frame, empty it, parse on. */
  function Drain(parsers: Parsers, mem: seq<byte>, rd: nat, used: nat): (r: (seq<Delivery>, Parsers))
    requires Readable(Kinds(parsers), mem, rd, used)
    ensures Kinds(r.1) == Kinds(parsers)
    decreases used - rd, Completes(parsers, mem, rd, used)
  {
    var r := Parse(parsers, mem, rd, used);
    if r.pid.None? then ([], r.parsers)
    else
      var pid := r.pid.value;
      ResetCompletesNothing(r.parsers, mem, r.rd, used, pid);
      var (later, parsers') := Drain(r.parsers[pid := ResetFrame(r.parsers[pid])], mem, r.rd, used);
      ([Delivery(pid, FrameIn(r.parsers[pid]))] + later, parsers')
  }

  //
  // A drained buffer gives what its packets give
  //

  lemma DrainNothing(parsers: Parsers, mem: seq<byte>, rd: nat, used: nat)
    requires rd >= used
    ensures Readable(Kinds(parsers), mem, rd, used) && Drain(parsers, mem, rd, used) == ([], parsers)
  {}

  lemma DrainSkips(parsers: Parsers, mem: seq<byte>, rd: nat, used: nat)
    requires Readable(Kinds(parsers), mem, rd, used) && rd < used && PidOf(mem[rd..]) !in parsers
    ensures Drain(parsers, mem, rd, used) == Drain(parsers, mem, rd + PACKET, used)
  {}

  lemma DrainPasses(parsers: Parsers, mem: seq<byte>, rd: nat, used: nat)
    requires Readable(Kinds(parsers), mem, rd, used) && rd < used && PidOf(mem[rd..]) in parsers
    requires !Completes(parsers, mem, rd, used)
    ensures var pid := PidOf(mem[rd..]);
      var q := Process(parsers[pid], mem[rd..]);
      Kinds(parsers[pid := q]) == Kinds(parsers)
      && Drain(parsers, mem, rd, used) == Drain(parsers[pid := q], mem, rd + PACKET, used)
  {
    KindsKept(parsers, PidOf(mem[rd..]), Process(parsers[PidOf(mem[rd..])], mem[rd..]));
    hide Process, PidOf, Sane;
  }

  lemma DrainDelivers(parsers: Parsers, mem: seq<byte>, rd: nat, used: nat)
    requires Readable(Kinds(parsers), mem, rd, used) && Completes(parsers, mem, rd, used)
    ensures var pid := PidOf(mem[rd..]);
      var q := Process(parsers[pid], mem[rd..]);
      var emptied := parsers[pid := ResetFrame(q)];
      && Kinds(emptied) == Kinds(parsers) && !Completes(emptied, mem, rd, used)
      && Drain(parsers, mem, rd, used)
         == ([Delivery(pid, FrameIn(q))] + Drain(emptied, mem, rd, used).0, Drain(emptied, mem, rd, used).1)
  {
    var pid := PidOf(mem[rd..]);
    var q := Process(parsers[pid], mem[rd..]);
    KindsKept(parsers, pid, q);
    ResetCompletesNothing(parsers[pid := q], mem, rd, used, pid);
    hide Process, PidOf, Sane;
    assert parsers[pid := q][pid := ResetFrame(q)] == parsers[pid := ResetFrame(q)];
  }

  lemma PidIsLocal(k: Packet, tail: seq<byte>)
    ensures PidOf(k + tail) == PidOf(k)
  {}

  /** One packet of a drained buffer. */
  lemma DrainStep(parsers: Parsers, k: Packet, mem: seq<byte>, rd: nat, used: nat)
    requires PacketFor(parsers, k) && rd + PACKET <= used && used + OVERREAD <= |mem|
    requires mem[rd..] == k + mem[rd + PACKET..] && Quiet(mem[rd + PACKET])
    requires Readable(Kinds(parsers), mem, rd + PACKET, used)
    ensures Readable(Kinds(parsers), mem, rd, used)
    ensures var (now, parsers') := TakeAny(parsers, k);
      && Kinds(parsers') == Kinds(parsers)
      && Drain(parsers, mem, rd, used) == (now + Drain(parsers', mem, rd + PACKET, used).0,
                                           Drain(parsers', mem, rd + PACKET, used).1)
  {
    var pid, tail := PidOf(k), mem[rd + PACKET..];
    PidIsLocal(k, tail);
    if pid !in parsers {
      hide Process, PidOf, Sane, Drain;
      DrainSkips(parsers, mem, rd, used);
      assert [] + Drain(parsers, mem, rd + PACKET, used).0 == Drain(parsers, mem, rd + PACKET, used).0;
    } else {
      var p := parsers[pid];
      ProcessIsLocal(p, k, tail);
      var q := ProcessPacket(p, k);
      hide Process, PidOf, Sane, ProcessPacket, Drain;
      KindsKept(parsers, pid, Take(p, k).1);
      if q.state != Complete {
        DrainPasses(parsers, mem, rd, used);
        assert Tagged(pid, []) + Drain(parsers[pid := q], mem, rd + PACKET, used).0
            == Drain(parsers[pid := q], mem, rd + PACKET, used).0;
      } else {
        DrainDelivers(parsers, mem, rd, used);
        var emptied := parsers[pid := ResetFrame(q)];
        ProcessIsLocal(ResetFrame(q), k, tail);
        DrainPasses(emptied, mem, rd, used);
        assert Tagged(pid, [FrameIn(q)]) == [Delivery(pid, FrameIn(q))];
        assert emptied[pid := Take(p, k).1] == parsers[pid := Take(p, k).1];
      }
    }
  }

  predicate Synced(ks: seq<Packet>) { forall i | 0 <= i < |ks| :: ks[i][0] == 0x47 }

  /**
   A buffer of whole packets, all starting with the sync byte and followed by a few bytes of slack:
   draining it delivers what feeding its packets one by one delivers, and leaves the same parsers. The
   packet left behind by a completed frame is read again, and counts once.
   */
  lemma {:induction false} DrainIsFeed(parsers: Parsers, ks: seq<Packet>, mem: seq<byte>, rd: nat, used: nat)
    requires PacketsFor(parsers, ks) && Synced(ks)
    requires rd <= used && used + OVERREAD <= |mem| && mem[rd..used] == Flatten(ks) && Quiet(mem[used])
    ensures Readable(Kinds(parsers), mem, rd, used)
    ensures Drain(parsers, mem, rd, used) == FeedAny(parsers, ks)
    decreases ks
  {
    hide Drain, TakeAny, PidOf, SanePacket, Sane;
    if ks == [] {
      DrainNothing(parsers, mem, rd, used);
    } else {
      var k, rest := ks[0], ks[1..];
      var (now, parsers') := TakeAny(parsers, k);
      assert |Flatten(ks)| == used - rd && Flatten(ks) == k + Flatten(rest);
      assert mem[rd + PACKET..used] == mem[rd..used][PACKET..] == Flatten(rest);
      assert mem[rd..] == k + mem[rd + PACKET..] by {
        assert mem[rd..rd + PACKET] == mem[rd..used][..PACKET] == k;
      }
      NextIsQuiet(rest, mem, rd + PACKET, used);
      LaterPacketsFor(parsers, ks);
      DrainIsFeed(parsers', rest, mem, rd + PACKET, used);
      TakeKeepsKinds(parsers, k);
      assert PacketFor(parsers, k);
      DrainStep(parsers, k, mem, rd, used);
    }
  }

  lemma NextIsQuiet(rest: seq<Packet>, mem: seq<byte>, at: nat, used: nat)
    requires Synced(rest) && at <= used < |mem| && mem[at..used] == Flatten(rest) && Quiet(mem[used])
    ensures Quiet(mem[at])
  {
    if rest != [] {
      assert mem[at] == mem[at..used][0] == rest[0][0];
    }
  }

  lemma TakeKeepsKinds(parsers: Parsers, k: Packet)
    requires PacketFor(parsers, k)
    ensures Kinds(TakeAny(parsers, k).1) == Kinds(parsers)
  {}

  lemma LaterPacketsFor(parsers: Parsers, ks: seq<Packet>)
    requires PacketsFor(parsers, ks) && ks != []
    ensures PacketFor(parsers, ks[0]) && PacketsFor(TakeAny(parsers, ks[0]).1, ks[1..])
  {
    hide PidOf, SanePacket;
    forall i | 0 <= i < |ks[1..]| ensures PacketFor(TakeAny(parsers, ks[0]).1, ks[1..][i]) {
      assert PacketFor(parsers, ks[i + 1]);
    }
  }

  //
  // Refilling
  //

  /** A read: whole packets, followed by whatever else the buffer holds. */
  datatype Refill = Refill(packets: seq<Packet>, slack: seq<byte>)

  predicate GoodRefill(r: Refill) {
    Synced(r.packets) && |r.slack| >= OVERREAD && Quiet(r.slack[0])
  }

  function Memory(r: Refill): seq<byte> { Flatten(r.packets) + r.slack }

  function Packets(refills: seq<Refill>): seq<Packet> {
    if refills == [] then [] else refills[0].packets + Packets(refills[1..])
  }

  /** Buffer after buffer. */
  ghost predicate DrainsTo(parsers: Parsers, refills: seq<Refill>, out: seq<Delivery>, after: Parsers)
    decreases refills
  {
    if refills == [] then out == [] && after == parsers
    else
      var mem, used := Memory(refills[0]), |Flatten(refills[0].packets)|;
      && Readable(Kinds(parsers), mem, 0, used)
      && var (now, rest) := Drain(parsers, mem, 0, used);
      exists later :: out == now + later && DrainsTo(rest, refills[1..], later, after)
  }

  lemma {:induction false} FeedAnyConcat(parsers: Parsers, a: seq<Packet>, b: seq<Packet>)
    requires PacketsFor(parsers, a + b)
    ensures PacketsFor(parsers, a) && PacketsFor(FeedAny(parsers, a).1, b)
    ensures FeedAny(parsers, a + b)
         == (FeedAny(parsers, a).0 + FeedAny(FeedAny(parsers, a).1, b).0, FeedAny(FeedAny(parsers, a).1, b).1)
    decreases a
  {
    hide TakeAny, SanePacket, PidOf;
    forall i | 0 <= i < |a| ensures PacketFor(parsers, a[i]) {
      assert PacketFor(parsers, (a + b)[i]);
    }
    if a == [] {
      assert a + b == b && [] + FeedAny(parsers, b).0 == FeedAny(parsers, b).0;
    } else {
      assert (a + b)[0] == a[0] && (a + b)[1..] == a[1..] + b;
      LaterPacketsFor(parsers, a + b);
      var (now, parsers') := TakeAny(parsers, a[0]);
      FeedAnyConcat(parsers', a[1..], b);
      var (later, parsers'') := FeedAny(parsers', a[1..]);
      assert now + (later + FeedAny(parsers'', b).0) == now + later + FeedAny(parsers'', b).0;
    }
  }

  lemma MemoryHolds(r: Refill)
    requires GoodRefill(r)
    ensures var mem, used := Memory(r), |Flatten(r.packets)|;
      used + OVERREAD <= |mem| && mem[0..used] == Flatten(r.packets) && Quiet(mem[used])
  {}

  /** Between which packets the refills cut the stream makes no difference. */
  lemma {:induction false} RefillsDoNotMatter(parsers: Parsers, refills: seq<Refill>)
    requires PacketsFor(parsers, Packets(refills)) && forall i | 0 <= i < |refills| :: GoodRefill(refills[i])
    ensures DrainsTo(parsers, refills, FeedAny(parsers, Packets(refills)).0, FeedAny(parsers, Packets(refills)).1)
    decreases refills
  {
    hide FeedAny, Drain, SanePacket, Sane, PacketFor, GoodRefill, Flatten;
    if refills == [] {
      FeedNoPackets(parsers);
    } else {
      var r, rest := refills[0], Packets(refills[1..]);
      FeedAnyConcat(parsers, r.packets, rest);
      MemoryHolds(r);
      GoodIsSynced(r);
      DrainIsFeed(parsers, r.packets, Memory(r), 0, |Flatten(r.packets)|);
      var (now, parsers') := FeedAny(parsers, r.packets);
      assert forall i | 0 <= i < |refills[1..]| :: refills[1..][i] == refills[i + 1];
      RefillsDoNotMatter(parsers', refills[1..]);
    }
  }

  lemma GoodIsSynced(r: Refill)
    requires GoodRefill(r)
    ensures Synced(r.packets)
  {}

  lemma FeedNoPackets(parsers: Parsers)
    ensures FeedAny(parsers, []) == ([], parsers)
  {}

  //
  // The multiplexer's output
  //

  lemma SyncedConcat(a: seq<Packet>, b: seq<Packet>)
    requires Synced(a) && Synced(b)
    ensures Synced(a + b)
  {}

  lemma {:induction false} UnitPacketsSynced(u: Unit, left: seq<byte>, first: bool, counter: nat, src4: nat, dst4: nat)
    requires counter < 16 && src4 < 4 && dst4 < 4
    ensures Synced(UnitPackets(u, left, first, counter, src4, dst4))
    decreases |left|
  {
    hide UnitPacket, Room, LayoutOf;
    if left != [] {
      var n := Room(|left|, if first then PesLength(u.video) else 0, src4, dst4);
      PidOfUnitPacket(u, left, first, counter, src4, dst4);
      UnitPacketsSynced(u, left[n..], false, (counter + 1) % 16, (src4 + n) % 4, dst4);
    }
  }

  lemma EmitSynced(m: Mux, c: Call)
    requires ValidMux(m) && ValidCall(c)
    ensures Synced(Emit(m, c).0)
  {
    hide UnitPackets, Ticked, ClockDue, TablesDue;
    UnitPacketsSynced(c.unit, c.unit.raw, true, CounterAt(m, c), c.src4, c.dst4);
    CountersPass(m, c);
  }

  lemma {:induction false} EmitAllSynced(m: Mux, calls: seq<Call>)
    requires ValidMux(m) && AllValidCalls(calls)
    ensures Synced(EmitAll(m, calls).0)
    decreases calls
  {
    hide Emit, Synced;
    if calls == [] {
      SyncedNothing();
    } else {
      EmitSynced(m, calls[0]);
      EmitAllSynced(Emit(m, calls[0]).1, calls[1..]);
      SyncedConcat(Emit(m, calls[0]).0, EmitAll(Emit(m, calls[0]).1, calls[1..]).0);
    }
  }

  lemma SyncedNothing()
    ensures Synced([])
  {}

  predicate GoodSlack(refills: seq<Refill>) {
    forall i | 0 <= i < |refills| :: |refills[i].slack| >= OVERREAD && Quiet(refills[i].slack[0])
  }

  lemma {:induction false} AllGood(refills: seq<Refill>)
    requires Synced(Packets(refills)) && GoodSlack(refills)
    ensures forall i | 0 <= i < |refills| :: GoodRefill(refills[i])
    decreases refills
  {
    if refills != [] {
      var a, b := refills[0].packets, Packets(refills[1..]);
      assert forall i | 0 <= i < |a| :: (a + b)[i] == a[i];
      assert forall i | 0 <= i < |b| :: (a + b)[|a| + i] == b[i];
      AllGood(refills[1..]);
      assert forall i | 1 <= i < |refills| :: refills[i] == refills[1..][i - 1];
    }
  }

  /**
   The multiplexer's output read back in buffers of any number of packets: the deliveries are the units
   sent, as if the packets had been fed one by one.
   */
  lemma BuffersGiveUnits(m: Mux, calls: seq<Call>, parsers: Parsers, refills: seq<Refill>, video: bool)
    requires ValidMux(m) && AllValidCalls(calls) && Enabled(parsers) && Pid(video) in parsers
    requires forall v: bool :: Pid(v) in parsers ==> AllCarried(calls, v, FRAME_MAX)
    requires Packets(refills) == EmitAll(m, calls).0 && GoodSlack(refills)
    ensures exists out, after ::
      && DrainsTo(parsers, refills, out, after)
      && Pid(video) in after
      && FramesOf(out, Pid(video)) + Held(after[Pid(video)]) == FramesSent(calls, video)
      && |Held(after[Pid(video)])| == Min(1, |FramesSent(calls, video)|)
  {
    DemuxUndoesMux(m, calls, parsers, video);
    EmitAllSynced(m, calls);
    AllGood(refills);
    RefillsDoNotMatter(parsers, refills);
    hide *;
    var (out, after) := FeedAny(parsers, EmitAll(m, calls).0);
    assert DrainsTo(parsers, refills, out, after);
  }
}
