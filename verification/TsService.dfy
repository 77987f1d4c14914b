/** What the clock and table packets say to a reader of the standard's packet fields (ISO/IEC 13818-1, 2.4.3). */
module TsService {
  import opened Arithmetic
  import opened Bytes
  import opened TsFormat
  import opened TsMux
  import opened TsStream
  import TsContinuity

  const TWO_33 := 0x2_0000_0000

  //
  // Clock references
  //

  /** The packet has an adaptation field that is not empty, with the flag of a clock reference in it. */
  predicate HasReference(k: Packet) { k[3] / 32 % 2 == 1 && k[4] > 0 && k[5] / 16 % 2 == 1 }

  /** The 33 bits of a reference: four octets and the top bit of the fifth. */
  function Reference(k: Packet): nat { BaseOf(Int32(k[6..10]), k[10]) }

  function BaseOf(high: nat, low: nat): nat { high * 2 + low / 128 }

  function References(ks: seq<Packet>): seq<nat> {
    if ks == [] then []
    else (if HasReference(ks[0]) then [Reference(ks[0])] else []) + References(ks[1..])
  }

  /** The clock without its lowest bit, in 33 bits. */
  function Halved(clock: nat): nat { clock % TWO_33 / 2 * 2 }

  lemma {:induction false} ReferencesConcat(a: seq<Packet>, b: seq<Packet>)
    ensures References(a + b) == References(a) + References(b)
  {
    hide HasReference, Reference;
    if a == [] {
      assert a + b == b && [] + References(b) == References(b);
    } else {
      assert (a + b)[0] == a[0] && (a + b)[1..] == a[1..] + b;
      ReferencesConcat(a[1..], b);
      var head := if HasReference(a[0]) then [Reference(a[0])] else [];
      assert head + (References(a[1..]) + References(b)) == head + References(a[1..]) + References(b);
    }
  }

  lemma ReferenceRead(pcr: u64, counter: nat)
    requires counter < 16
    ensures References([PcrPacket(pcr, counter)]) == [Halved(pcr)]
  {
    var k := PcrPacket(pcr, counter);
    var half := Be32(pcr / 2);
    assert k == LinkHeader(false, false, PCR_PID) + [0x20 + counter, 183, 0x10] + half + [0x7e, 0] + Repeat(0xff, 176);
    assert k[3] == 0x20 + counter && k[5] == 0x10 && k[10] == 0x7e;
    assert k[6..10] == half;
    assert HasReference(k);
    HalfRead(pcr);
    assert [k][1..] == [];
  }

  lemma HalfRead(pcr: nat)
    ensures Int32(Be32(pcr / 2)) * 2 == Halved(pcr)
  {
    var q, r := pcr / TWO_33, pcr % TWO_33;
    DivUnique(pcr, 2, q * TWO_32 + r / 2, r % 2);
    DivUnique(pcr / 2, TWO_32, q, r / 2);
    Be32Modulo(pcr / 2);
    Be32Int32(pcr / 2 % TWO_32);
  }

  /** Only the low 32 bits are written. */
  lemma Be32Modulo(v: nat)
    ensures Be32(v % TWO_32) == Be32(v)
  {
    var q, r := v / TWO_32, v % TWO_32;
    DivUnique(v, 256, q * 0x100_0000 + r / 256, r % 256);
    DivUnique(v, 0x1_0000, q * 0x1_0000 + r / 0x1_0000, r % 0x1_0000);
    DivUnique(v, 0x100_0000, q * 256 + r / 0x100_0000, r % 0x100_0000);
    DivUnique(v / 256, 256, q * 0x1_0000 + r / 256 / 256, r / 256 % 256);
    DivUnique(v / 0x1_0000, 256, q * 256 + r / 0x1_0000 / 256, r / 0x1_0000 % 256);
    DivUnique(v / 0x100_0000, 256, q, r / 0x100_0000);
  }

  lemma NoReferenceInTable(pid: nat, table: seq<byte>, counter: nat)
    requires pid < 0x2000 && counter < 16 && |table| <= 183
    ensures !HasReference(PsiPacket(pid, table, counter))
  {
    assert PsiPacket(pid, table, counter)[3] == 0x10 + counter;
  }

  lemma NoReferenceInUnit(u: Unit, left: seq<byte>, first: bool, counter: nat, src4: nat, dst4: nat)
    requires left != [] && counter < 16 && src4 < 4 && dst4 < 4
    ensures !HasReference(UnitPacket(u, left, first, counter, src4, dst4))
  {
    hide LayoutOf, Room, PesHeader;
    var pes := if first then PesHeader(u) else [];
    var pad, n := LayoutOf(|left|, |pes|, src4, dst4).pad, Room(|left|, |pes|, src4, dst4);
    var k := UnitPacket(u, left, first, counter, src4, dst4);
    var front := LinkHeader(first, true, Pid(u.video)) + [(if pad > 0 then 0x30 else 0x10) + counter] + Stuffing(pad);
    assert k == front + pes + left[..n];
    assert k[3] == front[3];
    assert pad > 0 ==> k[4] == front[4] == pad - 1;
    assert pad > 1 ==> k[5] == front[5] == 0;
  }

  lemma {:induction false} NoReferenceInUnits(u: Unit, left: seq<byte>, first: bool, counter: nat, src4: nat, dst4: nat)
    requires counter < 16 && src4 < 4 && dst4 < 4
    ensures References(UnitPackets(u, left, first, counter, src4, dst4)) == []
    decreases |left|
  {
    hide UnitPacket, LayoutOf, Room, HasReference;
    if left != [] {
      var n := Room(|left|, if first then PesLength(u.video) else 0, src4, dst4);
      NoReferenceInUnit(u, left, first, counter, src4, dst4);
      NoReferenceInUnits(u, left[n..], false, (counter + 1) % 16, (src4 + n) % 4, dst4);
      UnitPacketsStep(u, left, first, counter, src4, dst4, n);
    }
  }

  /** The time a master call sets the clock to. */
  function Due(time: nat, delay: nat): nat { if time > delay then time - delay else 0 }

  /**
   * A master call sends a reference when no clock was set before, when the clock goes back, when it has come at least
   * 9000 past the last reference, and when it is where it was last started.
   */
  predicate Sends(m: Mux, s: Stream, u: Unit) {
    var now := Due(if u.video then u.dts else u.pts, m.delay);
    u.pcrMaster && (m.unset || now < s.pcr || now >= s.prevPcr + 9000 || now == s.pcrStart)
  }

  /** Where the clock was last started: at the first time, and wherever it went back to. */
  function Start(m: Mux, s: Stream, u: Unit): nat {
    var now := Due(if u.video then u.dts else u.pts, m.delay);
    if u.pcrMaster && (m.unset || now < s.pcr) then now else s.pcrStart
  }

  /** Stream numbers are taken down by hundreds to 1 up to 100, and zero stays. */
  lemma IndexWraps(id: byte)
    ensures var i := StreamIndex(id);
      i <= 100 && (id - i) % 100 == 0 && (i == 0 <==> id == 0)
  {}

  /** A call in its parts: clock, tables, payload. */
  lemma CallParts(m: Mux, c: Call)
    requires ValidMux(m) && ValidCall(c)
    ensures var u, i := c.unit, StreamIndex(c.unit.stream);
      var s0, s' := Ticked(m, m.streams[i], u), Emit(m, c).1.streams[i];
      && Counts(s0) &&
      var (clock, s1) := ClockPart(s0, u);
      && Counts(s1) &&
      var (tables, s2) := TablePart(m, s1, u);
      && Counter(s2, u.video) < 16
      && Emit(m, c).0 == clock + tables + UnitPackets(u, u.raw, true, Counter(s2, u.video), c.src4, c.dst4)
      && s'.pcr == s2.pcr && s'.prevPcr == s2.prevPcr && s'.pcrStart == s2.pcrStart
      && s'.psiSent == s2.psiSent && s'.psiInterval == s2.psiInterval && s'.pts == s2.pts
  {
    var u, s := c.unit, m.streams[StreamIndex(c.unit.stream)];
    TickKeepsCounters(m, s, u);
    hide UnitPackets, Ticked, ClockDue, TablesDue, PcrPacket, PsiPacket;
  }

  lemma TickMoves(m: Mux, s: Stream, u: Unit)
    requires ValidStream(s) && Time(u) < TWO_64
    ensures var s0 := Ticked(m, s, u);
      && s0.pcr == (if u.pcrMaster then Due(if u.video then u.dts else u.pts, m.delay) else s.pcr)
      && s0.prevPcr == s.prevPcr && s0.pcrStart == Start(m, s, u)
      && (Sends(m, s, u) <==> u.pcrMaster && ClockDue(s0))
  {}

  /** What ticking and sending do to the clock. */
  lemma ClockMoves(m: Mux, s: Stream, u: Unit)
    requires ValidStream(s) && Time(u) < TWO_64 && Counts(Ticked(m, s, u))
    ensures var s0 := Ticked(m, s, u);
      var (clock, s1) := ClockPart(s0, u);
      && s1.pcr == (if u.pcrMaster then Due(if u.video then u.dts else u.pts, m.delay) else s.pcr)
      && s1.prevPcr == (if Sends(m, s, u) then s1.pcr else s.prevPcr) && s1.pcrStart == Start(m, s, u)
      && References(clock) == if Sends(m, s, u) then [Halved(s1.pcr)] else []
  {
    var s0 := Ticked(m, s, u);
    TickMoves(m, s, u);
    ReferenceRead(s0.pcr, s0.pcrCounter);
    NoReferences();
    hide Ticked, Sends, Due, ClockDue, References, PcrPacket, Halved;
  }

  /** The one reference a call sends is its clock, in whole packets and read back from the octets. */
  lemma CallReferences(m: Mux, c: Call)
    requires ValidMux(m) && ValidCall(c)
    ensures var u, i := c.unit, StreamIndex(c.unit.stream);
      var s, s' := m.streams[i], Emit(m, c).1.streams[i];
      && s'.pcr == (if u.pcrMaster then Due(if u.video then u.dts else u.pts, m.delay) else s.pcr)
      && s'.prevPcr == (if Sends(m, s, u) then s'.pcr else s.prevPcr) && s'.pcrStart == Start(m, s, u)
      && Emit(m, c).1.unset == (m.unset && !u.pcrMaster)
      && References(Emit(m, c).0) == if Sends(m, s, u) then [Halved(s'.pcr)] else []
  {
    var u, s := c.unit, m.streams[StreamIndex(c.unit.stream)];
    CallParts(m, c);
    ClockMoves(m, s, u);
    var (clock, s1) := ClockPart(Ticked(m, s, u), u);
    var (tables, s2) := TablePart(m, s1, u);
    TablesHaveNone(m, s1, u);
    assert s2.pcr == s1.pcr && s2.prevPcr == s1.prevPcr && s2.pcrStart == s1.pcrStart;
    UnsetAfter(m, c);
    hide Emit, References, Ticked, ClockPart, TablePart, Halved, UnitPackets, Sends, Due;
    var payload := UnitPackets(u, u.raw, true, Counter(s2, u.video), c.src4, c.dst4);
    NoReferenceInUnits(u, u.raw, true, Counter(s2, u.video), c.src4, c.dst4);
    ReferencesConcat(clock, tables);
    ReferencesConcat(clock + tables, payload);
  }

  lemma UnsetAfter(m: Mux, c: Call)
    requires ValidMux(m) && ValidCall(c)
    ensures Emit(m, c).1.unset == (m.unset && !c.unit.pcrMaster)
  {}

  lemma NoReferences()
    ensures References([]) == []
  {}

  lemma TablesHaveNone(m: Mux, s: Stream, u: Unit)
    requires ValidMux(m) && s.patCounter < 16 && s.pmtCounter < 16
    ensures References(TablePart(m, s, u).0) == []
  {
    hide HasReference, PsiPacket;
    var a, b := PsiPacket(PAT_PID, m.pat, s.patCounter), PsiPacket(PMT_PID, m.pmt, s.pmtCounter);
    NoReferenceInTable(PAT_PID, m.pat, s.patCounter);
    NoReferenceInTable(PMT_PID, m.pmt, s.pmtCounter);
    assert [a, b][1..] == [b] && [b][1..] == [];
    assert References([b]) == [] && References([a, b]) == References([b]);
  }

  /** The references read from a stream's own calls, of a run of calls of any streams. */
  function ReferencesOf(m: Mux, calls: seq<Call>, i: nat): seq<nat>
    requires ValidMux(m) && AllValidCalls(calls)
    decreases calls
  {
    if calls == [] then []
    else
      (if StreamIndex(calls[0].unit.stream) == i then References(Emit(m, calls[0]).0) else [])
      + ReferencesOf(Emit(m, calls[0]).1, calls[1..], i)
  }

  lemma HalvedClose(last: nat, clock: nat)
    requires last <= clock < last + 9000
    ensures (clock - Halved(last)) % TWO_33 <= 9000
  {
    var q, r := last / TWO_33, last % TWO_33;
    DivUnique(clock - Halved(last), TWO_33, q, clock - last + r % 2);
  }

  /**
   * Over every run of calls, of any streams with any time stamps: a stream's clock is never more than 9000 past the
   * last of its references as read back from the packets, counting in 33 bits.
   */
  lemma {:induction false} RunReferences(m: Mux, calls: seq<Call>, i: nat)
    requires ValidMux(m) && AllValidCalls(calls) && i < STREAMS
    ensures var refs, s, s' := ReferencesOf(m, calls, i), m.streams[i], EmitAll(m, calls).1.streams[i];
      && (if refs == [] then s'.prevPcr == s.prevPcr else refs[|refs| - 1] == Halved(s'.prevPcr))
      && (refs == [] ==> s'.pcr < s.prevPcr + 9000)
      && (refs != [] ==> (s'.pcr - refs[|refs| - 1]) % TWO_33 <= 9000)
    decreases calls
  {
    hide Emit, References, Sends, Due, Halved;
    if calls == [] {
      assert ValidStream(m.streams[i]);
    } else {
      var (now, m') := Emit(m, calls[0]);
      CallReferences(m, calls[0]);
      RunReferences(m', calls[1..], i);
      if StreamIndex(calls[0].unit.stream) != i { TsContinuity.OtherStreamsStay(m, calls[0], i); }
    }
    var s' := EmitAll(m, calls).1.streams[i];
    assert ValidStream(s');
    HalvedClose(s'.prevPcr, s'.pcr);
  }

  //
  // Tables
  //

  /** A packet that starts a section at once, holds it whole and is filled up with ones. */
  predicate CarriesTable(k: Packet, table: seq<byte>) {
    && k[0] == 0x47 && k[1] / 64 == 1 && k[3] / 16 == 1 && k[4] == 0
    && 5 + |table| <= PACKET && k[5..5 + |table|] == table
    && forall i | 5 + |table| <= i < PACKET :: k[i] == 0xff
  }

  lemma TableCarried(pid: nat, table: seq<byte>, counter: nat)
    requires pid < 0x2000 && counter < 16 && |table| <= 183
    ensures CarriesTable(PsiPacket(pid, table, counter), table)
  {
    var k, fill := PsiPacket(pid, table, counter), Repeat(0xff, 183 - |table|);
    var front := LinkHeader(true, false, pid) + [0x10 + counter, 0];
    assert k == front + table + fill;
    assert k[0] == front[0] && k[1] == front[1] == 0x40 + pid / 256 && k[3] == front[3] && k[4] == front[4];
    forall i | 5 + |table| <= i < PACKET ensures k[i] == 0xff {
      assert k[i] == fill[i - 5 - |table|];
    }
  }

  /** The presentation time tables are paced by: that of the stream's last master audio unit. */
  function Pace(s: Stream, u: Unit): nat { if u.pcrMaster && !u.video then u.pts else s.pts }

  /** How far the pace has come since the last tables; only master calls count it anew. */
  function Passed(s: Stream, u: Unit): int {
    if u.pcrMaster then (Pace(s, u) - s.psiSent) % 0x1_0000_0000_0000_0000 else s.psiInterval
  }

  /**
   * Tables go out with video, or with audio when there is nothing else: the first time, and when the pace has come
   * more than 18000 on.
   */
  predicate SendsTables(s: Stream, u: Unit) {
    && (u.video || u.audioOnly)
    && (s.psiSent == 0 || Passed(s, u) > 18000)
  }

  lemma TablesMove(m: Mux, s: Stream, u: Unit)
    requires ValidStream(s) && ValidMux(m) && Time(u) < TWO_64 && Counts(Ticked(m, s, u))
    requires Counts(ClockPart(Ticked(m, s, u), u).1)
    ensures var s1 := ClockPart(Ticked(m, s, u), u).1;
      && (SendsTables(s, u) <==> TablesDue(s1, u))
      && var s2 := TablePart(m, s1, u).1;
      && s2.psiSent == (if SendsTables(s, u) then Pace(s, u) else s.psiSent) && s2.pts == Pace(s, u)
      && s2.psiInterval == if SendsTables(s, u) then 0 else Passed(s, u)
  {
    hide PcrPacket, PsiPacket;
  }

  /** The program association table goes out on PID 0, and the program map on PID 0x100, once each when due. */
  lemma CallTables(m: Mux, c: Call)
    requires ValidMux(m) && ValidCall(c)
    ensures var u, i, ks := c.unit, StreamIndex(c.unit.stream), Emit(m, c).0;
      var s, s' := m.streams[i], Emit(m, c).1.streams[i];
      && s'.psiSent == (if SendsTables(s, u) then Pace(s, u) else s.psiSent) && s'.pts == Pace(s, u)
      && s'.psiInterval == (if SendsTables(s, u) then 0 else Passed(s, u))
      && if SendsTables(s, u) then
           && |OfPid(ks, 0)| == 1 && CarriesTable(OfPid(ks, 0)[0], m.pat)
           && |OfPid(ks, 0x100)| == 1 && CarriesTable(OfPid(ks, 0x100)[0], m.pmt)
         else OfPid(ks, 0) == OfPid(ks, 0x100) == []
  {
    var u, s := c.unit, m.streams[StreamIndex(c.unit.stream)];
    CallParts(m, c);
    TablesMove(m, s, u);
    var (clock, s1) := ClockPart(Ticked(m, s, u), u);
    var (tables, s2) := TablePart(m, s1, u);
    ClockOfPid(Ticked(m, s, u), u);
    TablesOfPid(m, s1, u);
    var payload := UnitPackets(u, u.raw, true, Counter(s2, u.video), c.src4, c.dst4);
    hide Emit, OfPid, CarriesTable, Ticked, ClockPart, TablePart, TablesDue, SendsTables, UnitPackets, Pace, Passed;
    MiddleOfPid(clock, tables, payload, 0);
    MiddleOfPid(clock, tables, payload, 0x100);
    UnitPacketsOfPid(u, u.raw, true, Counter(s2, u.video), c.src4, c.dst4, 0);
    UnitPacketsOfPid(u, u.raw, true, Counter(s2, u.video), c.src4, c.dst4, 0x100);
  }

  lemma MiddleOfPid(a: seq<Packet>, b: seq<Packet>, c: seq<Packet>, pid: nat)
    ensures OfPid(a, pid) == [] && OfPid(c, pid) == [] ==> OfPid(a + b + c, pid) == OfPid(b, pid)
  {
    hide OfPid;
    OfPidConcat(a, b, pid);
    OfPidConcat(a + b, c, pid);
  }

  lemma ClockOfPid(s: Stream, u: Unit)
    requires s.pcrCounter < 16
    ensures forall pid | pid in {0, 0x100} :: OfPid(ClockPart(s, u).0, pid) == []
  {
    hide PcrPacket, PidOf;
    var k := PcrPacket(s.pcr, s.pcrCounter);
    ServicePid(s.pcr, 0, [], s.pcrCounter);
    OfPidNothing(0);
    OfPidNothing(0x100);
    OfPidCons(k, [], 0);
    OfPidCons(k, [], 0x100);
    assert [k] == [k] + [];
  }

  lemma TablesOfPid(m: Mux, s: Stream, u: Unit)
    requires ValidMux(m) && s.patCounter < 16 && s.pmtCounter < 16
    ensures var ks := TablePart(m, s, u).0;
      if TablesDue(s, u) then
        && |OfPid(ks, 0)| == 1 && CarriesTable(OfPid(ks, 0)[0], m.pat)
        && |OfPid(ks, 0x100)| == 1 && CarriesTable(OfPid(ks, 0x100)[0], m.pmt)
      else OfPid(ks, 0) == OfPid(ks, 0x100) == []
  {
    var a, b := PsiPacket(PAT_PID, m.pat, s.patCounter), PsiPacket(PMT_PID, m.pmt, s.pmtCounter);
    TableCarried(PAT_PID, m.pat, s.patCounter);
    TableCarried(PMT_PID, m.pmt, s.pmtCounter);
    ServicePid(0, PAT_PID, m.pat, s.patCounter);
    ServicePid(0, PMT_PID, m.pmt, s.pmtCounter);
    hide PsiPacket, PidOf, CarriesTable, TablesDue;
    forall pid | pid in {0, 0x100}
      ensures OfPid([a, b], pid) == (if pid == 0 then [a] else [b]) && OfPid([], pid) == []
    {
      OfPidNothing(pid);
      assert [a, b] == [a] + [b] && [b] == [b] + [] && [a] + [] == [a];
      OfPidCons(a, [b], pid);
      OfPidCons(b, [], pid);
    }
  }
}
