/** What one call of the multiplexer emits and remembers, per stream. */
module TsMux {
  import opened Bytes
  import opened TsFormat

  const STREAMS := 100
  const PCR_PERIOD := 9000
  const PSI_PERIOD := 18000
  const TWO_64 := 0x1_0000_0000_0000_0000

  type u64 = v: int | 0 <= v < TWO_64

  datatype Stream = Stream(
    videoCounter: nat, audioCounter: nat, patCounter: nat, pmtCounter: nat, pcrCounter: nat,
    psiSent: u64, psiInterval: u64, pcr: u64, pcrStart: u64, prevPcr: u64, pcrInterval: u64, pts: u64)

  /** The start state; the table interval is whatever the memory held. */
  function NewStream(psiInterval: u64): Stream {
    Stream(0, 0, 0, 0, 0, 0, psiInterval, 0, 0, 0, 0, 0)
  }

  /** The stream number as it indexes the per-stream state: taken down by 100 while it is above 100. */
  function StreamIndex(id: byte): nat {
    if id > 200 then id - 200 else if id > 100 then id - 100 else id
  }

  predicate ValidStream(s: Stream) {
    && Counts(s)
    && s.prevPcr <= s.pcr < s.prevPcr + PCR_PERIOD
  }

  predicate Counts(s: Stream) {
    s.videoCounter < 16 && s.audioCounter < 16 && s.patCounter < 16 && s.pmtCounter < 16 && s.pcrCounter < 16
  }

  /** A packet with a clock reference and no payload. The base loses its lowest bit. */
  function PcrPacket(pcr: u64, counter: nat): Packet
    requires counter < 16
  {
    LinkHeader(false, false, PCR_PID) + [0x20 + counter, 183, 0x10]
      + Be32(pcr / 2) + [0x7e, 0] + Repeat(0xff, 176)
  }

  /** A packet with a table. */
  function PsiPacket(pid: nat, table: seq<byte>, counter: nat): Packet
    requires pid < 0x2000 && counter < 16 && |table| <= 183
  {
    LinkHeader(true, false, pid) + [0x10 + counter, 0] + table + Repeat(0xff, 183 - |table|)
  }

  /** The clock of a master stream: `time` is the decoding time of video and the presentation time of audio. */
  function Tick(s: Stream, unset: bool, delay: nat, time: u64, video: bool): Stream {
    var pcr := if time > delay then time - delay else 0;
    var s := if video then s else s.(pts := time);
    var s := s.(psiInterval := (s.pts - s.psiSent) % TWO_64);
    if !unset && pcr >= s.pcr then s.(pcrInterval := (pcr - s.prevPcr) % TWO_64, pcr := pcr)
    else s.(pcrStart := pcr, pcr := pcr)
  }

  predicate ClockDue(s: Stream) { s.pcrInterval >= PCR_PERIOD || s.pcr == s.pcrStart }

  function ClockSent(s: Stream): Stream {
    s.(prevPcr := s.pcr, pcrInterval := 0, pcrCounter := (s.pcrCounter + 1) % 16)
  }

  predicate TablesDue(s: Stream, u: Unit) {
    (u.video || u.audioOnly) && (s.psiSent == 0 || s.psiInterval > PSI_PERIOD)
  }

  function TablesSent(s: Stream): Stream {
    s.(patCounter := (s.patCounter + 1) % 16, pmtCounter := (s.pmtCounter + 1) % 16, psiSent := s.pts, psiInterval := 0)
  }

  function Counter(s: Stream, video: bool): nat { if video then s.videoCounter else s.audioCounter }

  function WithCounter(s: Stream, video: bool, counter: nat): Stream {
    if video then s.(videoCounter := counter) else s.(audioCounter := counter)
  }

  /** The multiplexer: the tables it has built, the clock delay, and whether no clock has been set yet. */
  datatype Mux = Mux(pat: seq<byte>, pmt: seq<byte>, delay: nat, unset: bool, streams: seq<Stream>)

  predicate ValidMux(m: Mux) {
    && |m.pat| <= 183 && |m.pmt| <= 183 && |m.streams| == STREAMS
    && forall i | 0 <= i < STREAMS :: ValidStream(m.streams[i])
  }

  /** A call: the unit, and the addresses of its payload and of the packet buffer modulo 4. */
  datatype Call = Call(unit: Unit, src4: nat, dst4: nat)

  /** Stream numbers 100 and 200 fall outside the per-stream state. */
  predicate ValidCall(c: Call) {
    && StreamIndex(c.unit.stream) < STREAMS
    && c.src4 < 4 && c.dst4 < 4
    && c.unit.pts < TWO_64 && c.unit.dts < TWO_64
  }

  function Time(u: Unit): nat { if u.video then u.dts else u.pts }

  function Ticked(m: Mux, s: Stream, u: Unit): Stream
    requires Time(u) < TWO_64
  {
    if u.pcrMaster then Tick(s, m.unset, m.delay, Time(u), u.video) else s
  }

  function ClockPart(s: Stream, u: Unit): (r: (seq<Packet>, Stream))
    requires s.pcrCounter < 16
  {
    if u.pcrMaster && ClockDue(s) then ([PcrPacket(s.pcr, s.pcrCounter)], ClockSent(s)) else ([], s)
  }

  function TablePart(m: Mux, s: Stream, u: Unit): (r: (seq<Packet>, Stream))
    requires ValidMux(m) && s.patCounter < 16 && s.pmtCounter < 16
  {
    if TablesDue(s, u) then
      ([PsiPacket(PAT_PID, m.pat, s.patCounter), PsiPacket(PMT_PID, m.pmt, s.pmtCounter)], TablesSent(s))
    else ([], s)
  }

  lemma TickKeepsCounters(m: Mux, s: Stream, u: Unit)
    requires ValidStream(s) && Time(u) < TWO_64
    ensures var t := Ticked(m, s, u);
      && t.videoCounter == s.videoCounter && t.audioCounter == s.audioCounter && t.patCounter == s.patCounter
      && t.pmtCounter == s.pmtCounter && t.pcrCounter == s.pcrCounter
  {}

  /** The clock invariant: whatever the time stamps, the clock stays within one period of the last reference sent. */
  lemma ClockStaysClose(m: Mux, s: Stream, u: Unit)
    requires ValidStream(s) && Time(u) < TWO_64
    ensures ValidStream(ClockPart(Ticked(m, s, u), u).1)
  {
    var t := Ticked(m, s, u);
    if u.pcrMaster && !ClockDue(t) {
      assert t.pcrInterval == t.pcr - t.prevPcr;
    }
  }

  /** One call. */
  function Emit(m: Mux, c: Call): (r: (seq<Packet>, Mux))
    requires ValidMux(m) && ValidCall(c)
    ensures ValidMux(r.1)
  {
    var u, i := c.unit, StreamIndex(c.unit.stream);
    ClockStaysClose(m, m.streams[i], u);
    TickKeepsCounters(m, m.streams[i], u);
    var (clock, s1) := ClockPart(Ticked(m, m.streams[i], u), u);
    var (tables, s2) := TablePart(m, s1, u);
    var payload := UnitPackets(u, u.raw, true, Counter(s2, u.video), c.src4, c.dst4);
    var s3 := WithCounter(s2, u.video, (Counter(s2, u.video) + |payload|) % 16);
    (clock + tables + payload, m.(streams := m.streams[i := s3], unset := m.unset && !u.pcrMaster))
  }

  predicate AllValidCalls(calls: seq<Call>) { forall i | 0 <= i < |calls| :: ValidCall(calls[i]) }

  /** A run of calls. */
  function EmitAll(m: Mux, calls: seq<Call>): (r: (seq<Packet>, Mux))
    requires ValidMux(m) && AllValidCalls(calls)
    ensures ValidMux(r.1)
    decreases calls
  {
    if calls == [] then ([], m)
    else
      var (now, m') := Emit(m, calls[0]);
      var (later, m'') := EmitAll(m', calls[1..]);
      (now + later, m'')
  }
}
