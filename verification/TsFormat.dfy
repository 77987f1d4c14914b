/** The transport stream packets of one access unit (ISO/IEC 13818-1, 2.4.3.2 and 2.4.3.6). */
module TsFormat {
  import opened Bytes

  const PACKET := 188
  const VIDEO_PID := 0x1011
  const AUDIO_PID := 0x1012
  const PCR_PID := 0x1001
  const PAT_PID := 0
  const PMT_PID := 0x100
  const VIDEO_ID := 0xE0
  const AUDIO_ID := 0xC0

  type Packet = p: seq<byte> | |p| == PACKET witness seq(PACKET, _ => 0)

  function Repeat(b: byte, n: nat): (s: seq<byte>)
    ensures |s| == n && forall i | 0 <= i < n :: s[i] == b
  {
    seq(n, _ => b)
  }

  /** The first three bytes of every packet. */
  function LinkHeader(start: bool, priority: bool, pid: nat): seq<byte>
    requires pid < 0x2000
  {
    [0x47, (if start then 0x40 else 0) + (if priority then 0x20 else 0) + pid / 256, pid % 256]
  }

  /** A stuffing adaptation field of `pad` bytes, its length byte included. */
  function Stuffing(pad: nat): seq<byte>
    requires pad <= 184
  {
    if pad == 0 then [] else if pad == 1 then [0] else [pad - 1, 0] + Repeat(0xff, pad - 2)
  }

  /** The 33 bits of a time stamp behind a 4-bit tag, cut up by marker bits. */
  function StampField(tag: nat, v: nat): (f: seq<byte>)
    requires tag < 16
    ensures |f| == 5
  {
    [tag * 16 + v / 0x4000_0000 % 8 * 2 + 1,
     v / 0x40_0000 % 256, v / 0x8000 % 128 * 2 + 1,
     v / 0x80 % 256, v % 128 * 2 + 1]
  }

  datatype Unit = Unit(video: bool, pts: nat, dts: nat, raw: seq<byte>, stream: byte, pcrMaster: bool, audioOnly: bool)

  function PesLength(video: bool): nat { if video then 20 else 16 }

  /** The PES header of a unit: video leaves its length open, audio carries it in 16 bits. */
  function PesHeader(u: Unit): (h: seq<byte>)
    ensures |h| == PesLength(u.video)
  {
    if u.video then
      [0, 0, 1, VIDEO_ID, 0, 0, 0x84, 0xC0, 11] + StampField(3, u.pts) + StampField(1, u.dts) + [0xff]
    else
      [0, 0, 1, AUDIO_ID] + Be16(|u.raw| + 10) + [0x84, 0x80, 7] + StampField(2, u.pts) + [0xff, 0xff]
  }

  function Pid(video: bool): nat { if video then VIDEO_PID else AUDIO_PID }

  //
  // Packet layout
  //

  /**
   How a packet divides: `pad` bytes of stuffing, and `lead` payload bytes copied first, both for the
   sake of alignment. `src4` and `dst4` are the addresses of
   the next payload byte and of the packet, modulo 4.
   */
  datatype Layout = Layout(pad: nat, lead: nat)

  function LayoutOf(left: nat, pes: nat, src4: nat, dst4: nat): (l: Layout)
    requires left > 0 && pes <= 20 && src4 < 4 && dst4 < 4
    ensures l.pad + pes < 184
    ensures left >= 184 - pes - l.pad
  {
    var lead := (4 - src4) % 4;
    if left >= 184 - pes then
      var pad := (4 - (dst4 + 4) % 4) % 4;
      if pad + lead == 4 then Layout(0, lead) else Layout(pad, 0)
    else
      Layout(184 - pes - left, lead)
  }

  /** Payload bytes of the next packet. */
  function Room(left: nat, pes: nat, src4: nat, dst4: nat): (n: nat)
    requires left > 0 && pes <= 20 && src4 < 4 && dst4 < 4
    ensures 1 <= n <= left && n <= 184
  {
    184 - pes - LayoutOf(left, pes, src4, dst4).pad
  }

  /**
   * How many bytes are copied past the end of the payload: the last packet may be asked to lead with more bytes than
   * are left, and copies what lies behind them in memory.
   */
  function Overrun(left: nat, pes: nat, src4: nat, dst4: nat): (n: nat)
    requires pes <= 20 && src4 < 4 && dst4 < 4
    ensures n <= 2
    decreases left
  {
    if left == 0 then 0
    else
      var n, lead := Room(left, pes, src4, dst4), LayoutOf(left, pes, src4, dst4).lead;
      if lead > n then lead - n else Overrun(left - n, 0, (src4 + n) % 4, dst4)
  }

  /** No packet is asked to lead with more bytes than it holds. */
  predicate Fits(left: nat, pes: nat, src4: nat, dst4: nat)
    requires pes <= 20 && src4 < 4 && dst4 < 4
    decreases left
  {
    left == 0 ||
    var n := Room(left, pes, src4, dst4);
    LayoutOf(left, pes, src4, dst4).lead <= n && Fits(left - n, 0, (src4 + n) % 4, dst4)
  }

  /** Only a packet that takes all that is left can be asked for more. */
  lemma LeadIsLast(left: nat, pes: nat, src4: nat, dst4: nat)
    requires left > 0 && pes <= 20 && src4 < 4 && dst4 < 4
    ensures LayoutOf(left, pes, src4, dst4).lead > Room(left, pes, src4, dst4) ==> Room(left, pes, src4, dst4) == left
  {}

  lemma {:induction false} OverrunExactly(left: nat, pes: nat, src4: nat, dst4: nat)
    requires pes <= 20 && src4 < 4 && dst4 < 4
    ensures Overrun(left, pes, src4, dst4) == 0 <==> Fits(left, pes, src4, dst4)
    decreases left
  {
    hide LayoutOf, Room;
    if left > 0 {
      var n := Room(left, pes, src4, dst4);
      OverrunExactly(left - n, 0, (src4 + n) % 4, dst4);
    }
  }

  lemma LayoutWhenAligned(left: nat, pes: nat, src4: nat)
    requires left > 0 && pes <= 20 && src4 < 4
    ensures LayoutOf(left, pes, src4, 0)
         == if left >= 184 - pes then Layout(0, 0) else Layout(184 - pes - left, (4 - src4) % 4)
  {}

  /** One packet of a 4-aligned buffer. */
  lemma FitsStep(left: nat, pes: nat, src4: nat)
    requires left > 0 && pes in {0, 16, 20} && src4 < 4
    ensures Fits(left, pes, src4, 0)
       <==> if left >= 184 - pes then Fits(left - (184 - pes), 0, src4, 0) else (4 - src4) % 4 <= left
  {
    hide LayoutOf;
    LayoutWhenAligned(left, pes, src4);
    assert (src4 + 184 - pes) % 4 == src4;
  }

  lemma {:induction false} FitsAfterFirst(left: nat, src4: nat)
    requires src4 < 4
    ensures Fits(left, 0, src4, 0) <==> left % 184 == 0 || left % 184 >= (4 - src4) % 4
    decreases left
  {
    hide Fits;
    if left == 0 {
      FitsNothing(0, src4);
    } else {
      FitsStep(left, 0, src4);
      if left >= 184 {
        FitsAfterFirst(left - 184, src4);
        assert (left - 184) % 184 == left % 184;
      }
    }
  }

  lemma FitsNothing(pes: nat, src4: nat)
    requires pes <= 20 && src4 < 4
    ensures Fits(0, pes, src4, 0)
  {}

  /** In a 4-aligned packet buffer only the last packet can fail: it must hold the bytes up to source alignment. */
  lemma FitsWhenAligned(left: nat, video: bool, src4: nat)
    requires src4 < 4
    ensures var room := 184 - PesLength(video);
      var last := if left < room then left else (left - room) % 184;
      Fits(left, PesLength(video), src4, 0) <==> last == 0 || last >= (4 - src4) % 4
  {
    hide Fits;
    var pes := PesLength(video);
    if left == 0 {
      FitsNothing(pes, src4);
    } else {
      FitsStep(left, pes, src4);
      if left >= 184 - pes {
        FitsAfterFirst(left - (184 - pes), src4);
      }
    }
  }

  /** The packets of a unit's payload, from the one that starts it (`first`) on. */
  function UnitPackets(u: Unit, left: seq<byte>, first: bool, counter: nat, src4: nat, dst4: nat): seq<Packet>
    requires counter < 16 && src4 < 4 && dst4 < 4
    decreases |left|
  {
    if left == [] then []
    else
      var n := Room(|left|, if first then PesLength(u.video) else 0, src4, dst4);
      [UnitPacket(u, left, first, counter, src4, dst4)]
      + UnitPackets(u, left[n..], false, (counter + 1) % 16, (src4 + n) % 4, dst4)
  }

  function UnitPacket(u: Unit, left: seq<byte>, first: bool, counter: nat, src4: nat, dst4: nat): Packet
    requires left != [] && counter < 16 && src4 < 4 && dst4 < 4
  {
    var pes := if first then PesHeader(u) else [];
    var pad := LayoutOf(|left|, |pes|, src4, dst4).pad;
    LinkHeader(first, true, Pid(u.video))
      + [(if pad > 0 then 0x30 else 0x10) + counter]
      + Stuffing(pad) + pes + left[..Room(|left|, |pes|, src4, dst4)]
  }

  /** What the rest of a unit is sent in, and by how much that overruns. */
  lemma {:induction false} FirstOf(u: Unit, rest: seq<byte>, first: bool, counter: nat, src4: nat, dst4: nat)
    requires rest != [] && counter < 16 && src4 < 4 && dst4 < 4
    ensures var pes := if first then PesLength(u.video) else 0;
      var n, lead := Room(|rest|, pes, src4, dst4), LayoutOf(|rest|, pes, src4, dst4).lead;
      && (lead > n ==> n == |rest|)
      && Overrun(|rest|, pes, src4, dst4)
         == (if lead > n then lead - n else 0) + Overrun(|rest| - n, 0, (src4 + n) % 4, dst4)
      && UnitPackets(u, rest, first, counter, src4, dst4)
         == [UnitPacket(u, rest, first, counter, src4, dst4)]
            + UnitPackets(u, rest[n..], false, (counter + 1) % 16, (src4 + n) % 4, dst4)
  {
    var pes := if first then PesLength(u.video) else 0;
    OverrunStep(|rest|, pes, src4, dst4);
    UnitPacketsStep(u, rest, first, counter, src4, dst4, Room(|rest|, pes, src4, dst4));
    hide UnitPacket, LayoutOf, Room, Overrun, UnitPackets;
  }

  lemma {:induction false} UnitPacketsStep(u: Unit, left: seq<byte>, first: bool, counter: nat,
                                           src4: nat, dst4: nat, n: nat)
    requires left != [] && counter < 16 && src4 < 4 && dst4 < 4
    requires n == Room(|left|, if first then PesLength(u.video) else 0, src4, dst4)
    ensures UnitPackets(u, left, first, counter, src4, dst4)
      == [UnitPacket(u, left, first, counter, src4, dst4)]
         + UnitPackets(u, left[n..], false, (counter + 1) % 16, (src4 + n) % 4, dst4)
  {
    hide UnitPacket, LayoutOf, Room;
  }

  lemma {:induction false} OverrunStep(left: nat, pes: nat, src4: nat, dst4: nat)
    requires left > 0 && pes <= 20 && src4 < 4 && dst4 < 4
    ensures var n, lead := Room(left, pes, src4, dst4), LayoutOf(left, pes, src4, dst4).lead;
      && (lead > n ==> n == left)
      && Overrun(left, pes, src4, dst4)
         == (if lead > n then lead - n else 0) + Overrun(left - n, 0, (src4 + n) % 4, dst4)
  {
    LeadIsLast(left, pes, src4, dst4);
    hide LayoutOf, Room;
  }

  lemma {:induction false} NoPackets(u: Unit, counter: nat, first: bool, src4: nat, dst4: nat)
    requires counter < 16 && src4 < 4 && dst4 < 4
    ensures UnitPackets(u, [], first, counter, src4, dst4) == []
    ensures Overrun(0, if first then PesLength(u.video) else 0, src4, dst4) == 0
  {}
}
