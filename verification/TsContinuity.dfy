/** Continuity counters and start flags over whole runs of the multiplexer. */
module TsContinuity {
  import opened Arithmetic
  import opened Bytes
  import opened TsFormat
  import opened TsMux
  import opened TsStream

  function CounterOf(k: Packet): nat { k[3] % 16 }

  predicate HasStartFlag(k: Packet) { k[1] / 64 % 2 == 1 }

  /** The counters of the packets go up by one, modulo 16, from `n`. */
  ghost predicate Continuous(ks: seq<Packet>, n: nat) {
    forall i | 0 <= i < |ks| :: CounterOf(ks[i]) == (n + i) % 16
  }

  lemma ContinuousConcat(a: seq<Packet>, b: seq<Packet>, n: nat)
    requires Continuous(a, n) && Continuous(b, (n + |a|) % 16)
    ensures Continuous(a + b, n)
  {
    hide CounterOf;
    forall i | 0 <= i < |a + b|
      ensures CounterOf((a + b)[i]) == (n + i) % 16
    {
      if i >= |a| {
        assert (a + b)[i] == b[i - |a|];
        CountOn(n, |a|, i - |a|);
      }
    }
  }

  lemma UnitPacketSays(u: Unit, left: seq<byte>, first: bool, counter: nat, src4: nat, dst4: nat)
    requires left != [] && counter < 16 && src4 < 4 && dst4 < 4
    ensures var k := UnitPacket(u, left, first, counter, src4, dst4);
      CounterOf(k) == counter && (HasStartFlag(k) <==> first)
  {
    hide LayoutOf, Room, PesHeader;
    var k := UnitPacket(u, left, first, counter, src4, dst4);
    assert k[1] == (if first then 0x40 else 0) + 0x20 + Pid(u.video) / 256;
    assert k[3] == 0x30 + counter || k[3] == 0x10 + counter;
  }

  lemma ServicePacketsSay(pcr: u64, pid: nat, table: seq<byte>, counter: nat)
    requires counter < 16 && pid < 0x2000 && |table| <= 183
    ensures CounterOf(PcrPacket(pcr, counter)) == counter && CounterOf(PsiPacket(pid, table, counter)) == counter
  {
    assert PcrPacket(pcr, counter)[3] == 0x20 + counter;
    assert PsiPacket(pid, table, counter)[3] == 0x10 + counter;
  }

  /** Within a unit: counters in a row, and the start flag on the first packet and no other. */
  lemma {:induction false} UnitContinuous(u: Unit, left: seq<byte>, first: bool, counter: nat, src4: nat, dst4: nat)
    requires counter < 16 && src4 < 4 && dst4 < 4
    ensures var ks := UnitPackets(u, left, first, counter, src4, dst4);
      && Continuous(ks, counter)
      && forall i | 0 <= i < |ks| :: HasStartFlag(ks[i]) <==> first && i == 0
    decreases |left|
  {
    hide UnitPacket, Room, LayoutOf, CounterOf, HasStartFlag;
    if left != [] {
      var n := Room(|left|, if first then PesLength(u.video) else 0, src4, dst4);
      var k, rest := UnitPacket(u, left, first, counter, src4, dst4),
                     UnitPackets(u, left[n..], false, (counter + 1) % 16, (src4 + n) % 4, dst4);
      UnitPacketSays(u, left, first, counter, src4, dst4);
      UnitContinuous(u, left[n..], false, (counter + 1) % 16, (src4 + n) % 4, dst4);
      ContinuousConcat([k], rest, counter);
      var ks := UnitPackets(u, left, first, counter, src4, dst4);
      assert ks == [k] + rest;
      assert forall i | 1 <= i < |ks| :: ks[i] == rest[i - 1];
    }
  }

  const PIDS: set<nat> := {VIDEO_PID, AUDIO_PID, PAT_PID, PMT_PID, PCR_PID}

  /** The counter a stream keeps for a PID. */
  function Kept(s: Stream, pid: nat): nat
    requires pid in PIDS
  {
    if pid == VIDEO_PID then s.videoCounter else if pid == AUDIO_PID then s.audioCounter
    else if pid == PAT_PID then s.patCounter else if pid == PMT_PID then s.pmtCounter else s.pcrCounter
  }

  /** Of the packets, those of the PID continue from counter `n`, and `after` is the next counter. */
  ghost predicate Passed(ks: seq<Packet>, pid: nat, n: nat, after: nat) {
    Continuous(OfPid(ks, pid), n) && after == (n + |OfPid(ks, pid)|) % 16
  }

  lemma PassedNothing(pid: nat, n: nat)
    requires n < 16
    ensures Passed([], pid, n, n)
  {}

  lemma PassedOne(k: Packet, pid: nat, n: nat)
    requires n < 16 && (PidOf(k) == pid ==> CounterOf(k) == n)
    ensures Passed([k], pid, n, if PidOf(k) == pid then (n + 1) % 16 else n)
  {
    hide PidOf, CounterOf;
    assert [k] == [k] + [];
    OfPidCons(k, [], pid);
  }

  lemma PassedConcat(a: seq<Packet>, b: seq<Packet>, pid: nat, n: nat, n1: nat, n2: nat)
    requires Passed(a, pid, n, n1) && Passed(b, pid, n1, n2)
    ensures Passed(a + b, pid, n, n2)
  {
    hide Continuous, OfPid;
    OfPidConcat(a, b, pid);
    ContinuousConcat(OfPid(a, pid), OfPid(b, pid), n);
  }

  lemma ClockPassed(s: Stream, u: Unit, pid: nat)
    requires Counts(s) && pid in PIDS
    ensures var (ks, s') := ClockPart(s, u);
      Passed(ks, pid, Kept(s, pid), Kept(s', pid)) && Counts(s') && Counter(s', u.video) == Counter(s, u.video)
  {
    var k := PcrPacket(s.pcr, s.pcrCounter);
    ServicePid(s.pcr, 0, [], s.pcrCounter);
    ServicePacketsSay(s.pcr, 0, [], s.pcrCounter);
    hide PcrPacket, PidOf, CounterOf, ClockDue, Passed;
    PassedNothing(pid, Kept(s, pid));
    PassedOne(k, pid, Kept(s, pid));
  }

  lemma TablesPassed(m: Mux, s: Stream, u: Unit, pid: nat)
    requires ValidMux(m) && Counts(s) && pid in PIDS
    ensures var (ks, s') := TablePart(m, s, u);
      Passed(ks, pid, Kept(s, pid), Kept(s', pid)) && Counts(s') && Counter(s', u.video) == Counter(s, u.video)
  {
    var pat, pmt := PsiPacket(PAT_PID, m.pat, s.patCounter), PsiPacket(PMT_PID, m.pmt, s.pmtCounter);
    ServicePid(0, PAT_PID, m.pat, s.patCounter);
    ServicePid(0, PMT_PID, m.pmt, s.pmtCounter);
    ServicePacketsSay(0, PAT_PID, m.pat, s.patCounter);
    ServicePacketsSay(0, PMT_PID, m.pmt, s.pmtCounter);
    hide PsiPacket, PidOf, CounterOf, TablesDue, Passed;
    PassedNothing(pid, Kept(s, pid));
    var n := Kept(s, pid);
    var n1 := if pid == PAT_PID then (n + 1) % 16 else n;
    PassedOne(pat, pid, n);
    PassedOne(pmt, pid, n1);
    PassedConcat([pat], [pmt], pid, n, n1, if pid == PMT_PID then (n1 + 1) % 16 else n1);
    assert [pat] + [pmt] == [pat, pmt];
  }

  lemma PassedAll(ks: seq<Packet>, s: Stream, video: bool, pid: nat)
    requires Counts(s) && pid in PIDS && Continuous(ks, Counter(s, video))
    requires OfPid(ks, pid) == if pid == Pid(video) then ks else []
    ensures Passed(ks, pid, Kept(s, pid), Kept(WithCounter(s, video, (Counter(s, video) + |ks|) % 16), pid))
  {
    hide OfPid, Continuous;
    CounterMoved(s, video, |ks|, pid);
    NoneContinuous(Kept(s, pid));
    hide Kept, WithCounter;
  }

  lemma PayloadPassed(s: Stream, u: Unit, src4: nat, dst4: nat, pid: nat)
    requires Counts(s) && pid in PIDS && src4 < 4 && dst4 < 4
    ensures var ks := UnitPackets(u, u.raw, true, Counter(s, u.video), src4, dst4);
      Passed(ks, pid, Kept(s, pid), Kept(WithCounter(s, u.video, (Counter(s, u.video) + |ks|) % 16), pid))
  {
    hide UnitPackets, OfPid, Continuous, Kept, WithCounter, Passed, HasStartFlag;
    UnitContinuous(u, u.raw, true, Counter(s, u.video), src4, dst4);
    UnitPacketsOfPid(u, u.raw, true, Counter(s, u.video), src4, dst4, pid);
    PassedAll(UnitPackets(u, u.raw, true, Counter(s, u.video), src4, dst4), s, u.video, pid);
  }

  /** One call: on every PID the packets continue the stream's counter, which is moved past them. */
  lemma CallPassed(m: Mux, c: Call, pid: nat)
    requires ValidMux(m) && ValidCall(c) && pid in PIDS
    ensures var i := StreamIndex(c.unit.stream);
      Passed(Emit(m, c).0, pid, Kept(m.streams[i], pid), Kept(Emit(m, c).1.streams[i], pid))
  {
    hide Passed, UnitPackets, ClockPart, TablePart, Ticked;
    var u, i := c.unit, StreamIndex(c.unit.stream);
    var s := m.streams[i];
    TickKeepsCounters(m, s, u);
    var s0 := Ticked(m, s, u);
    assert Kept(s0, pid) == Kept(s, pid);
    ClockPassed(s0, u, pid);
    var (clock, s1) := ClockPart(s0, u);
    TablesPassed(m, s1, u, pid);
    var (tables, s2) := TablePart(m, s1, u);
    PayloadPassed(s2, u, c.src4, c.dst4, pid);
    hide Kept;
    var payload := UnitPackets(u, u.raw, true, Counter(s2, u.video), c.src4, c.dst4);
    var s3 := WithCounter(s2, u.video, (Counter(s2, u.video) + |payload|) % 16);
    PassedConcat(clock, tables, pid, Kept(s, pid), Kept(s1, pid), Kept(s2, pid));
    PassedConcat(clock + tables, payload, pid, Kept(s, pid), Kept(s2, pid), Kept(s3, pid));
  }

  lemma CounterMoved(s: Stream, video: bool, n: nat, pid: nat)
    requires pid in PIDS && s.videoCounter < 16 && s.audioCounter < 16
    requires s.patCounter < 16 && s.pmtCounter < 16 && s.pcrCounter < 16
    ensures Kept(WithCounter(s, video, (Counter(s, video) + n) % 16), pid)
         == if pid == Pid(video) then (Counter(s, video) + n) % 16 else Kept(s, pid)
  {}

  lemma NoneContinuous(n: nat)
    ensures Continuous([], n)
  {}

  /** How many packets have been sent on a PID: in all, and by each stream. */
  datatype Tally = Tally(total: int, each: seq<int>)

  predicate ValidTally(t: Tally) { |t.each| == STREAMS }

  function Others(t: Tally, i: nat): int
    requires ValidTally(t) && i < STREAMS
  {
    t.total - t.each[i]
  }

  function Add(t: Tally, i: nat, n: nat): (r: Tally)
    requires ValidTally(t) && i < STREAMS
    ensures ValidTally(r)
  {
    Tally(t.total + n, t.each[i := t.each[i] + n])
  }

  function SentOn(m: Mux, c: Call, pid: nat): nat
    requires ValidMux(m) && ValidCall(c)
  {
    |OfPid(Emit(m, c).0, pid)|
  }

  /** Whenever a stream sends on the PID, the packets the other streams have sent on it number a multiple of 16. */
  predicate TakesTurns(m: Mux, calls: seq<Call>, pid: nat, t: Tally)
    requires ValidMux(m) && AllValidCalls(calls) && ValidTally(t)
    decreases calls
  {
    calls == [] ||
    var i, n := StreamIndex(calls[0].unit.stream), SentOn(m, calls[0], pid);
    (n == 0 || Others(t, i) % 16 == 0) && TakesTurns(Emit(m, calls[0]).1, calls[1..], pid, Add(t, i, n))
  }

  /** The tally agrees with what the streams keep. */
  predicate Tallied(m: Mux, pid: nat, t: Tally)
    requires ValidMux(m) && pid in PIDS && ValidTally(t)
  {
    forall i | 0 <= i < STREAMS :: Kept(m.streams[i], pid) == t.each[i] % 16
  }

  lemma Modulo(x: int, y: int, n: nat)
    ensures (x % 16 + n) % 16 == (x + n) % 16
    ensures x % 16 == y % 16 <==> (x - y) % 16 == 0
  {}

  lemma OtherStreamsStay(m: Mux, c: Call, j: nat)
    requires ValidMux(m) && ValidCall(c) && j < STREAMS && j != StreamIndex(c.unit.stream)
    ensures Emit(m, c).1.streams[j] == m.streams[j]
  {}

  lemma TallyKept(m: Mux, c: Call, pid: nat, t: Tally)
    requires ValidMux(m) && ValidCall(c) && pid in PIDS && ValidTally(t) && Tallied(m, pid, t)
    ensures Tallied(Emit(m, c).1, pid, Add(t, StreamIndex(c.unit.stream), SentOn(m, c, pid)))
  {
    hide Emit, Kept, Continuous;
    var i, n := StreamIndex(c.unit.stream), SentOn(m, c, pid);
    CallPassed(m, c, pid);
    Modulo(t.each[i], 0, n);
    forall j | 0 <= j < STREAMS
      ensures Kept(Emit(m, c).1.streams[j], pid) == Add(t, i, n).each[j] % 16
    {
      if j != i { OtherStreamsStay(m, c, j); }
    }
  }

  lemma ContinuousParts(a: seq<Packet>, b: seq<Packet>, n: nat)
    ensures Continuous(a + b, n) <==> Continuous(a, n) && Continuous(b, (n + |a|) % 16)
  {
    hide CounterOf;
    if Continuous(a, n) && Continuous(b, (n + |a|) % 16) { ContinuousConcat(a, b, n); }
    if Continuous(a + b, n) {
      forall i | 0 <= i < |a| ensures CounterOf(a[i]) == (n + i) % 16 {
        assert (a + b)[i] == a[i];
      }
      forall i | 0 <= i < |b| ensures CounterOf(b[i]) == ((n + |a|) % 16 + i) % 16 {
        assert (a + b)[|a| + i] == b[i];
        CountOn(n, |a|, i);
      }
    }
  }

  lemma ContinuousFrom(ks: seq<Packet>, n: nat, n': nat)
    requires n < 16 && n' < 16 && Continuous(ks, n)
    ensures Continuous(ks, n') <==> ks == [] || n' == n
  {
    if ks != [] && Continuous(ks, n') { assert CounterOf(ks[0]) == (n + 0) % 16 == (n' + 0) % 16; }
  }

  /**
   * Continuity, for every run of calls from any streams: the packets of a PID carry consecutive counters modulo 16 if
   * and only if the streams take turns on it.
   */
  lemma {:induction false} RunContinuousExactly(m: Mux, calls: seq<Call>, pid: nat, t: Tally)
    requires ValidMux(m) && AllValidCalls(calls) && pid in PIDS && ValidTally(t) && Tallied(m, pid, t)
    ensures Continuous(OfPid(EmitAll(m, calls).0, pid), t.total % 16) <==> TakesTurns(m, calls, pid, t)
    decreases calls
  {
    hide Emit, Continuous, Kept, OfPid;
    if calls == [] {
      NothingOfPid(pid);
      NoneContinuous(t.total % 16);
    } else {
      var (now, m') := Emit(m, calls[0]);
      var i, n := StreamIndex(calls[0].unit.stream), SentOn(m, calls[0], pid);
      CallPassed(m, calls[0], pid);
      TallyKept(m, calls[0], pid, t);
      RunContinuousExactly(m', calls[1..], pid, Add(t, i, n));
      OfPidConcat(now, EmitAll(m', calls[1..]).0, pid);
      ContinuousParts(OfPid(now, pid), OfPid(EmitAll(m', calls[1..]).0, pid), t.total % 16);
      ContinuousFrom(OfPid(now, pid), t.each[i] % 16, t.total % 16);
      Modulo(t.total, t.each[i], n);
    }
  }

  lemma NothingOfPid(pid: nat)
    ensures OfPid([], pid) == []
  {}

  /** From the start, with nothing sent yet. */
  lemma FirstRunContinuousExactly(m: Mux, calls: seq<Call>, pid: nat)
    requires ValidMux(m) && AllValidCalls(calls) && pid in PIDS
    requires forall i | 0 <= i < STREAMS :: m.streams[i] == NewStream(m.streams[i].psiInterval)
    ensures Continuous(OfPid(EmitAll(m, calls).0, pid), 0)
       <==> TakesTurns(m, calls, pid, Tally(0, seq(STREAMS, _ => 0)))
  {
    hide Continuous, OfPid, EmitAll, TakesTurns;
    RunContinuousExactly(m, calls, pid, Tally(0, seq(STREAMS, _ => 0)));
  }

  lemma {:induction false} OneTakesTurns(m: Mux, calls: seq<Call>, i: nat, pid: nat, t: Tally)
    requires ValidMux(m) && AllValidCalls(calls) && i < STREAMS && ValidTally(t) && Others(t, i) == 0
    requires forall c | c in calls :: StreamIndex(c.unit.stream) == i
    ensures TakesTurns(m, calls, pid, t)
    decreases calls
  {
    hide Emit, SentOn;
    if calls != [] { OneTakesTurns(Emit(m, calls[0]).1, calls[1..], i, pid, Add(t, i, SentOn(m, calls[0], pid))); }
  }

  /** In particular while all calls are for one stream, from the counter it keeps. */
  lemma RunContinuous(m: Mux, calls: seq<Call>, i: nat, pid: nat)
    requires ValidMux(m) && AllValidCalls(calls) && pid in PIDS && i < STREAMS
    requires forall c | c in calls :: StreamIndex(c.unit.stream) == i
    ensures Continuous(OfPid(EmitAll(m, calls).0, pid), Kept(m.streams[i], pid))
  {
    hide Emit, EmitAll, OfPid, Continuous, TakesTurns;
    var each := seq(STREAMS, j requires 0 <= j < STREAMS => Kept(m.streams[j], pid));
    KeptBelow(m, pid);
    var t := Tally(each[i], each);
    OneTakesTurns(m, calls, i, pid, t);
    RunContinuousExactly(m, calls, pid, t);
  }

  lemma KeptBelow(m: Mux, pid: nat)
    requires ValidMux(m) && pid in PIDS
    ensures forall i | 0 <= i < STREAMS :: Kept(m.streams[i], pid) < 16
  {}

  /** For instance, two streams that each send their first unit of a kind: both use the same PID but count apart. */
  lemma TwoStreamsRepeatCounters(m: Mux, a: Call, b: Call)
    requires ValidMux(m) && ValidCall(a) && ValidCall(b)
    requires StreamIndex(a.unit.stream) != StreamIndex(b.unit.stream)
    requires CounterAt(m, a) == CounterAt(m, b) && a.unit.video == b.unit.video
    requires 0 < |a.unit.raw| <= 100 && b.unit.raw != []
    ensures var ks := OfPid(EmitAll(m, [a, b]).0, Pid(a.unit.video));
      |ks| >= 2 && CounterOf(ks[1]) == CounterOf(ks[0])
  {
    var m', video := Emit(m, a).1, a.unit.video;
    OtherStreamKept(m, a, b);
    TwoCalls(m, a, b);
    UnitContinuous(a.unit, a.unit.raw, true, CounterAt(m, a), a.src4, a.dst4);
    UnitContinuous(b.unit, b.unit.raw, true, CounterAt(m', b), b.src4, b.dst4);
    OnePacket(a.unit, CounterAt(m, a), a.src4, a.dst4);
    SomePackets(b.unit, CounterAt(m', b), b.src4, b.dst4);
    hide Emit, UnitPackets, CounterOf, HasStartFlag, OfPid, EmitAll, CounterAt;
    assert (Payload(m, a) + Payload(m', b))[1] == Payload(m', b)[0];
  }

  lemma TwoCalls(m: Mux, a: Call, b: Call)
    requires ValidMux(m) && ValidCall(a) && ValidCall(b) && a.unit.video == b.unit.video
    ensures OfPid(EmitAll(m, [a, b]).0, Pid(a.unit.video)) == Payload(m, a) + Payload(Emit(m, a).1, b)
  {
    hide Emit, OfPid, EmitAll, Payload, ValidCall;
    var m', video := Emit(m, a).1, a.unit.video;
    EmitAllOfPid(m, [a, b], video);
    assert [a, b][1..] == [b] && [b][1..] == [];
    assert PayloadRun(m', [b], video) == Payload(m', b) + PayloadRun(Emit(m', b).1, [], video);
    assert PayloadRun(m, [a, b], video) == Payload(m, a) + PayloadRun(m', [b], video);
  }

  lemma SomePackets(u: Unit, counter: nat, src4: nat, dst4: nat)
    requires counter < 16 && src4 < 4 && dst4 < 4
    requires u.raw != []
    ensures UnitPackets(u, u.raw, true, counter, src4, dst4) != []
  {}

  lemma OtherStreamKept(m: Mux, a: Call, b: Call)
    requires ValidMux(m) && ValidCall(a) && ValidCall(b)
    requires StreamIndex(a.unit.stream) != StreamIndex(b.unit.stream)
    ensures CounterAt(Emit(m, a).1, b) == CounterAt(m, b)
  {}

  lemma OnePacket(u: Unit, counter: nat, src4: nat, dst4: nat)
    requires counter < 16 && src4 < 4 && dst4 < 4
    requires 0 < |u.raw| <= 100
    ensures |UnitPackets(u, u.raw, true, counter, src4, dst4)| == 1
  {
    assert Room(|u.raw|, PesLength(u.video), src4, dst4) == |u.raw|;
  }
}
