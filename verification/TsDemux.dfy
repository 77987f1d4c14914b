/** Reassembling elementary stream frames from transport stream packets, one parser per PID. */
module TsDemux {
  import opened Bytes
  import opened TsFormat

  datatype FrameState = Init | Filling | Complete

  /** A parser and the frame it fills; `max` is the frame buffer's size. */
  datatype Parser = Parser(video: bool, max: nat, state: FrameState, data: seq<byte>, pts: nat, dts: nat, pesLen: int)

  const FRAME_MAX := 2 * 1024 * 1024

  function NewParser(video: bool): Parser {
    Parser(video, FRAME_MAX, Init, [], 0, 0, 0)
  }

  /** What the caller does with a delivered frame: empty it for the next one. */
  function ResetFrame(p: Parser): Parser { p.(state := Init, data := []) }

  /** Slack a buffer must have behind its last packet, because four payload bytes are always inspected. */
  const OVERREAD := 4

  function PayloadAt(mem: seq<byte>): nat
    requires |mem| >= PACKET
  {
    if mem[3] / 32 % 2 == 1 then OffsetPast(mem[4]) else 4
  }

  function OffsetPast(adaptation: int): int { adaptation + 5 }

  predicate StartsUnit(mem: seq<byte>, at: nat, id: byte)
    requires at + 4 <= |mem|
  {
    mem[at] == 0 && mem[at + 1] == 0 && mem[at + 2] == 1 && mem[at + 3] == id
  }

  function StreamId(video: bool): byte { if video then VIDEO_ID else AUDIO_ID }

  function HeaderEnd(mem: seq<byte>, at: nat): int
    requires at + 9 <= |mem|
  {
    var len: int := mem[at + 8];
    at + 9 + len
  }

  /** The packet's own length fields stay inside it. */
  predicate Sane(mem: seq<byte>, video: bool) {
    && |mem| >= PACKET + OVERREAD
    && PayloadAt(mem) <= PACKET
    && (StartsUnit(mem, PayloadAt(mem), StreamId(video)) ==>
        && PayloadAt(mem) + 9 <= PACKET && StampsInside(mem, PayloadAt(mem))
        && HeaderEnd(mem, PayloadAt(mem)) <= PACKET)
  }

  /** The 33-bit time stamp, as the reader's masks pick it: the low bits come from the wrong shift. */
  function StampLow(f: seq<byte>): nat
    requires |f| == 5
  {
    var b0: int, b1: int, b2: int, b3: int, b4: int := f[0], f[1], f[2], f[3], f[4];
    b0 / 2 % 4 * 0x4000_0000 + b1 * 0x40_0000 + b2 / 2 * 0x8000 + b3 * 0x80 + b4 % 128
  }

  function StampHigh(f: seq<byte>): nat
    requires |f| == 5
  {
    f[0] / 8 % 2
  }

  function PtsOf(f: seq<byte>): nat
    requires |f| == 5
  {
    StampHigh(f) * TWO_32 + StampLow(f)
  }

  /** Decoding times, and audio times, lose their top bit to a missing shift. */
  function DtsOf(f: seq<byte>): nat
    requires |f| == 5
  {
    if StampHigh(f) == 1 && StampLow(f) % 2 == 0 then StampLow(f) + 1 else StampLow(f)
  }

  /** The time stamps the header announces lie inside the packet. */
  predicate StampsInside(mem: seq<byte>, at: nat)
    requires at + 9 <= |mem|
  {
    && (mem[at + 7] / 128 == 1 ==> at + 14 <= PACKET)
    && (mem[at + 7] / 64 % 2 == 1 ==> at + 19 <= PACKET)
  }

  function Stamped(p: Parser, mem: seq<byte>, at: nat): Parser
    requires |mem| >= PACKET && at + 9 <= |mem| && StampsInside(mem, at)
  {
    var pts :=
      if mem[at + 7] / 128 == 0 then p.pts
      else if p.video then PtsOf(mem[at + 9..at + 14])
      else DtsOf(mem[at + 9..at + 14]);
    var dts := if mem[at + 7] / 64 % 2 == 1 then DtsOf(mem[at + 14..at + 19]) else p.dts;
    p.(pts := pts, dts := dts)
  }

  /** Copies a slice into the frame, or drops it when the frame buffer is not strictly larger. */
  function Append(p: Parser, slice: seq<byte>): Parser {
    if |p.data| < p.max - |slice| then p.(data := p.data + slice) else p
  }

  function Process(p: Parser, mem: seq<byte>): Parser
    requires Sane(mem, p.video)
  {
    var at := PayloadAt(mem);
    if StartsUnit(mem, at, StreamId(p.video)) then
      if p.data != [] then p.(state := Complete)
      else
        Begin(Stamped(p, mem, at), mem, HeaderEnd(mem, at), PesField(mem[at + 4], mem[at + 5]))
    else if p.video then
      if p.state == Filling then Append(p, mem[at..PACKET]) else p
    else
      AppendAudio(p, mem[at..PACKET])
  }

  function PesField(high: int, low: int): int { high * 256 + low }

  /** The first slice of a unit; audio takes its length from the header, counted from behind it. */
  function Begin(p: Parser, mem: seq<byte>, body: nat, pesLen: int): Parser
    requires |mem| >= PACKET >= body
  {
    if p.video then Append(p.(state := Filling, pesLen := pesLen), mem[body..PACKET])
    else
      var header: int := body - PayloadAt(mem) - 6;
      AppendAudio(p.(pesLen := if pesLen == 0 then 0 else pesLen - header), mem[body..PACKET])
  }

  /** Audio keeps count of the announced length while it is positive. */
  function AppendAudio(p: Parser, slice: seq<byte>): Parser {
    if p.pesLen <= 0 then Append(p, slice)
    else if |slice| > p.pesLen then Append(p.(pesLen := 0), slice[..p.pesLen])
    else Append(p.(pesLen := p.pesLen - |slice|), slice)
  }

  //
  // Whole packets
  //

  /** Bytes that cannot complete a start code cut short at the end of a packet, the sync byte among them. */
  predicate Quiet(b: byte) { b !in {0, 1, VIDEO_ID, AUDIO_ID} }

  const NEXT: seq<byte> := [0x47, 0x47, 0x47, 0x47]

  predicate SanePacket(k: Packet, video: bool) { Sane(k + NEXT, video) }

  /** What a packet does to its parser when another packet follows. */
  function ProcessPacket(p: Parser, k: Packet): (q: Parser)
    requires SanePacket(k, p.video)
    ensures q.video == p.video && q.max == p.max
    ensures q.state == Complete ==> p.state == Complete || p.data != []
  {
    Process(p, k + NEXT)
  }

  lemma StartIsLocal(k: Packet, tail: seq<byte>, at: nat, id: byte)
    requires at <= PACKET && |tail| >= OVERREAD && Quiet(tail[0]) && id in {VIDEO_ID, AUDIO_ID}
    ensures StartsUnit(k + tail, at, id) == StartsUnit(k + NEXT, at, id)
  {
    assert at + 4 <= PACKET ==> forall i | at <= i < at + 4 :: (k + tail)[i] == k[i] == (k + NEXT)[i];
    assert at < PACKET ==> forall i | at <= i < PACKET :: (k + tail)[i] == k[i] == (k + NEXT)[i];
    assert (k + tail)[PACKET] == tail[0] && (k + NEXT)[PACKET] == 0x47;
  }

  /** The four-byte look ahead makes no difference as long as the byte behind the packet is quiet. */
  lemma ProcessIsLocal(p: Parser, k: Packet, tail: seq<byte>)
    requires |tail| >= OVERREAD && Quiet(tail[0]) && SanePacket(k, p.video)
    ensures Sane(k + tail, p.video) && Process(p, k + tail) == ProcessPacket(p, k)
  {
    var a, b := k + tail, k + NEXT;
    assert forall i | 0 <= i < PACKET :: a[i] == b[i];
    assert PayloadAt(a) == PayloadAt(b);
    var at := PayloadAt(a);
    StartIsLocal(k, tail, at, StreamId(p.video));
    assert a[at..PACKET] == b[at..PACKET];
    if StartsUnit(a, at, StreamId(p.video)) {
      assert at + 14 <= PACKET ==> a[at + 9..at + 14] == b[at + 9..at + 14];
      assert at + 19 <= PACKET ==> a[at + 14..at + 19] == b[at + 14..at + 19];
      assert HeaderEnd(a, at) == HeaderEnd(b, at);
      assert a[HeaderEnd(a, at)..PACKET] == b[HeaderEnd(a, at)..PACKET];
    }
  }
}
