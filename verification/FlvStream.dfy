/** Reading the media of a session as one stream of FLV tags, in pieces of any size. */
module FlvStream {
  import opened Bytes

  const AUDIO: byte := 8
  const VIDEO: byte := 9
  const INFO: byte := 18

  type Kind = k: byte | k == AUDIO || k == VIDEO || k == INFO witness AUDIO

  /** What the session yields next: a media message, or the notice that the stream is complete. */
  datatype Event = Media(kind: Kind, timestamp: nat, body: seq<byte>) | Complete

  /** Audio and video messages too small to hold anything are skipped. */
  predicate Kept(e: Event)
    requires e.Media?
  {
    !(e.kind == VIDEO && |e.body| <= 5) && !(e.kind == AUDIO && |e.body| <= 1)
  }

  function TagHead(e: Event, resume: nat): (h: seq<byte>)
    requires e.Media?
    ensures |h| == 11
  {
    var t := (resume + e.timestamp) % TWO_32;
    [e.kind] + Be24(|e.body|) + Be24(t) + [t / 0x100_0000] + Be24(0)
  }

  /** A tag: its header, the message, and the length of both. */
  function Tag(e: Event, resume: nat): (t: seq<byte>)
    requires e.Media?
    ensures |t| == |e.body| + 15
  {
    TagHead(e, resume) + e.body + Be32(11 + |e.body|)
  }

  /** All there is to read of a session. */
  function Stream(events: seq<Event>, resume: nat): seq<byte> {
    if events == [] || events[0].Complete? then []
    else (if Kept(events[0]) then Tag(events[0], resume) else []) + Stream(events[1..], resume)
  }

  datatype Status = Going | Ended | Completed

  datatype Fetched = Fetched(tag: seq<byte>, rest: seq<Event>) | Over(status: Status, rest: seq<Event>)

  /** The next tag, or how the stream ends. */
  function Fetch(events: seq<Event>, resume: nat): (f: Fetched)
    ensures f.Fetched? ==> f.tag != []
    ensures f.Over? ==> !f.status.Going?
    ensures |f.rest| <= |events|
  {
    if events == [] then Over(Ended, [])
    else if events[0].Complete? then Over(Completed, events[1..])
    else if Kept(events[0]) then Fetched(Tag(events[0], resume), events[1..])
    else Fetch(events[1..], resume)
  }

  /** The part of a tag still to be handed out, and what the session has yet to yield. */
  datatype State = State(leftover: seq<byte>, events: seq<Event>, status: Status)

  /** One call: the leftover first, and when that is short of the request, at most one more tag. */
  function Read(s: State, size: nat, resume: nat): (r: (seq<byte>, State)) {
    if !s.status.Going? then ([], s)
    else
      var n := Min(|s.leftover|, size);
      if n == size then (s.leftover[..n], s.(leftover := s.leftover[n..]))
      else
        var f := Fetch(s.events, resume);
        if f.Over? then (s.leftover, State([], f.rest, f.status))
        else
          var k := Min(|f.tag|, size - n);
          (s.leftover + f.tag[..k], State(f.tag[k..], f.rest, Going))
  }

  function Pending(s: State, resume: nat): seq<byte> {
    s.leftover + if s.status.Going? then Stream(s.events, resume) else []
  }

  /** A stream that is over has nothing left over. */
  predicate Proper(s: State) { s.status.Going? || s.leftover == [] }

  lemma {:induction false} FetchTakes(events: seq<Event>, resume: nat)
    ensures var f := Fetch(events, resume);
      Stream(events, resume) == if f.Fetched? then f.tag + Stream(f.rest, resume) else []
  {
    if events != [] && events[0].Media? && !Kept(events[0]) { FetchTakes(events[1..], resume); }
  }

  /** A call hands out the next octets and no others, never more than asked for; and some, while there are any. */
  lemma ReadTakes(s: State, size: nat, resume: nat)
    requires Proper(s)
    ensures var r := Read(s, size, resume);
      && Proper(r.1) && |r.0| <= size
      && Pending(s, resume) == r.0 + Pending(r.1, resume)
      && (size > 0 && r.0 == [] ==> Pending(s, resume) == [])
  {
    hide Fetch, Stream;
    var n := Min(|s.leftover|, size);
    if s.status.Going? && n < size {
      FetchTakes(s.events, resume);
      var f := Fetch(s.events, resume);
      if f.Fetched? {
        var k := Min(|f.tag|, size - n);
        var rest := Stream(f.rest, resume);
        assert f.tag == f.tag[..k] + f.tag[k..];
        assert s.leftover + (f.tag + rest) == s.leftover + f.tag[..k] + (f.tag[k..] + rest);
      } else {
        assert s.leftover + [] == s.leftover;
      }
    } else if s.status.Going? {
      assert s.leftover == s.leftover[..n] + s.leftover[n..];
    }
  }

  /** The session is asked for another message only once the leftover is all handed out. */
  lemma FetchedWhenEmpty(s: State, size: nat, resume: nat)
    requires Proper(s)
    ensures var r := Read(s, size, resume);
      r.1.events != s.events ==> |r.0| >= |s.leftover| && r.0[..|s.leftover|] == s.leftover && |s.leftover| < size
  {}

  function Run(s: State, sizes: seq<nat>, resume: nat): (seq<byte>, State)
    decreases sizes
  {
    if sizes == [] then ([], s)
    else
      var first := Read(s, sizes[0], resume);
      var others := Run(first.1, sizes[1..], resume);
      (first.0 + others.0, others.1)
  }

  /** Whatever the sizes asked for, the octets handed out are the beginning of the stream: none lost, none repeated. */
  lemma {:induction false} RunTakes(s: State, sizes: seq<nat>, resume: nat)
    requires Proper(s)
    ensures var r := Run(s, sizes, resume);
      Proper(r.1) && Pending(s, resume) == r.0 + Pending(r.1, resume)
    decreases sizes
  {
    hide Read, Pending;
    if sizes != [] {
      ReadTakes(s, sizes[0], resume);
      var first := Read(s, sizes[0], resume);
      RunTakes(first.1, sizes[1..], resume);
      var others := Run(first.1, sizes[1..], resume);
      assert first.0 + (others.0 + Pending(others.1, resume)) == first.0 + others.0 + Pending(others.1, resume);
    }
  }

  /** Of two readers of the same session, one is only ever ahead of the other. */
  lemma SizesDoNotMatter(s: State, sizes: seq<nat>, others: seq<nat>, resume: nat)
    requires Proper(s)
    ensures var a, b := Run(s, sizes, resume).0, Run(s, others, resume).0; a <= b || b <= a
  {
    hide Run, Pending;
    RunTakes(s, sizes, resume);
    RunTakes(s, others, resume);
    var a, b, p := Run(s, sizes, resume).0, Run(s, others, resume).0, Pending(s, resume);
    assert a <= p && b <= p;
  }

  /** Enough calls for at least an octet each hand out the whole stream. */
  lemma {:induction false} AllDelivered(s: State, sizes: seq<nat>, resume: nat)
    requires Proper(s) && (forall n <- sizes :: n > 0) && |sizes| >= |Pending(s, resume)|
    ensures Run(s, sizes, resume).0 == Pending(s, resume)
    decreases sizes
  {
    hide Read, Pending;
    RunTakes(s, sizes, resume);
    if sizes != [] && Pending(s, resume) != [] {
      ReadTakes(s, sizes[0], resume);
      var first := Read(s, sizes[0], resume);
      assert |Pending(s, resume)| == |first.0| + |Pending(first.1, resume)|;
      assert sizes[0] in sizes && forall n <- sizes[1..] :: n in sizes;
      AllDelivered(first.1, sizes[1..], resume);
    }
  }

  //
  // What is read can be taken apart again
  //

  /** The messages a stream is made of. */
  function Messages(events: seq<Event>, resume: nat): seq<Event> {
    if events == [] || events[0].Complete? then []
    else
      var e := events[0];
      (if Kept(e) then [Media(e.kind, (resume + e.timestamp) % TWO_32, e.body)] else [])
      + Messages(events[1..], resume)
  }

  /** A reader of FLV tags that checks the length behind each tag. */
  function Split(s: seq<byte>): Option<seq<Event>> {
    if s == [] then Some([])
    else if |s| < 15 then None
    else
      var n := Int24(s[1..]);
      var kind := s[0];
      if |s| < n + 15 || Int32(s[n + 11..]) != n + 11 || kind !in {AUDIO, VIDEO, INFO} then None
      else
        var t: int := s[7];
        var rest := Split(s[n + 15..]);
        if rest.None? then None
        else Some([Media(kind, t * 0x100_0000 + Int24(s[4..]), s[11..n + 11])] + rest.value)
  }

  lemma HeadRead(e: Event, resume: nat)
    requires e.Media? && |e.body| < TWO_24
    ensures var h, t := TagHead(e, resume), (resume + e.timestamp) % TWO_32;
      h[0] == e.kind && Int24(h[1..]) == |e.body| && Int24(h[4..]) == t % TWO_24 && h[7] == t / TWO_24
  {
    var h, t, n := TagHead(e, resume), (resume + e.timestamp) % TWO_32, |e.body|;
    Be24Int24(n);
    Be24Int24(t);
    assert h[1..4] == Be24(n) && h[4..7] == Be24(t);
    SameInt24(h[1..], Be24(n));
    SameInt24(h[4..], Be24(t));
  }

  lemma SameInt24(s: seq<byte>, b: seq<byte>)
    requires |s| >= 3 && |b| >= 3 && s[..3] == b[..3]
    ensures Int24(s) == Int24(b)
  {
    assert s[0] == s[..3][0] == b[0] && s[1] == s[..3][1] == b[1] && s[2] == s[..3][2] == b[2];
  }

  lemma SameInt32(s: seq<byte>, b: seq<byte>)
    requires |b| == 4 && b <= s
    ensures Int32(s) == Int32(b)
  {}

  lemma TagRead(e: Event, resume: nat, rest: seq<byte>)
    requires e.Media? && |e.body| < TWO_24
    ensures var s, t := Tag(e, resume) + rest, (resume + e.timestamp) % TWO_32;
      && s[0] == e.kind && Int24(s[1..]) == |e.body| && Int24(s[4..]) == t % TWO_24 && s[7] == t / TWO_24
      && s[11..|e.body| + 11] == e.body && Int32(s[|e.body| + 11..]) == |e.body| + 11 && s[|e.body| + 15..] == rest
  {
    hide TagHead, Be32, Int24, Int32;
    var h, s, n := TagHead(e, resume), Tag(e, resume) + rest, |e.body|;
    HeadRead(e, resume);
    Be32Int32(11 + n);
    assert s == h + (e.body + (Be32(11 + n) + rest));
    assert s[1..][..3] == h[1..][..3] && s[4..][..3] == h[4..][..3];
    SameInt24(s[1..], h[1..]);
    SameInt24(s[4..], h[4..]);
    assert s[n + 11..] == Be32(11 + n) + rest;
    SameInt32(s[n + 11..], Be32(11 + n));
  }

  lemma SplitsFirst(e: Event, resume: nat, rest: seq<byte>)
    requires e.Media? && |e.body| < TWO_24
    ensures Split(Tag(e, resume) + rest) ==
      if Split(rest).None? then None
      else Some([Media(e.kind, (resume + e.timestamp) % TWO_32, e.body)] + Split(rest).value)
  {
    hide Tag, Int24, Int32;
    TagRead(e, resume, rest);
    var t := (resume + e.timestamp) % TWO_32;
    assert t / TWO_24 * TWO_24 + t % TWO_24 == t;
  }

  lemma {:induction false} StreamSplits(events: seq<Event>, resume: nat)
    requires forall e <- events :: e.Media? ==> |e.body| < TWO_24
    ensures Split(Stream(events, resume)) == Some(Messages(events, resume))
  {
    hide Tag, Split;
    if events == [] || events[0].Complete? {
      EmptySplits();
    } else {
      StreamSplits(events[1..], resume);
      var rest := Stream(events[1..], resume);
      if Kept(events[0]) {
        SplitsFirst(events[0], resume, rest);
      } else {
        assert Stream(events, resume) == rest;
        assert Messages(events, resume) == Messages(events[1..], resume);
      }
    }
  }

  lemma EmptySplits()
    ensures Split([]) == Some([])
  {}

  //
  // By octets
  //

  /** A tag: kind, size, time with its highest octet last, stream zero; the message; and the length of both. */
  predicate SaysTag(t: seq<byte>, kind: byte, time: int, body: seq<byte>) {
    && |t| == |body| + 15
    && t[0] == kind && Number3(t[1], t[2], t[3]) == |body| && Number4(t[7], t[4], t[5], t[6]) == time
    && t[8] == t[9] == t[10] == 0
    && t[11..11 + |body|] == body
    && Number4(t[11 + |body|], t[12 + |body|], t[13 + |body|], t[14 + |body|]) == |body| + 11
  }

  lemma ThreeOctets(n: nat)
    requires n < TWO_24
    ensures var b := Be24(n); |b| == 3 && Number3(b[0], b[1], b[2]) == n
  {
    Be24Int24(n);
  }

  lemma FourOctets(n: nat)
    requires n < TWO_32
    ensures var b := Be32(n); Number4(b[0], b[1], b[2], b[3]) == n
  {
    Be32Int32(n);
  }

  lemma TimeOctets(t: nat)
    requires t < TWO_32
    ensures var b := Be24(t); |b| == 3 && Number4(t / TWO_24, b[0], b[1], b[2]) == t
  {
    Be24Int24(t);
  }

  lemma TagSays(e: Event, resume: nat)
    requires e.Media? && |e.body| < TWO_24
    ensures SaysTag(Tag(e, resume), e.kind, (resume + e.timestamp) % 0x1_0000_0000, e.body)
  {
    hide Be24, Be32, Number3, Number4;
    var n, time := |e.body|, (resume + e.timestamp) % TWO_32;
    ThreeOctets(n);
    TimeOctets(time);
    FourOctets(n + 11);
    NothingOctets();
    var h, end, t := TagHead(e, resume), Be32(11 + n), Tag(e, resume);
    HeadIs(h, e, time);
    assert t == h + e.body + end;
    assert forall i | 0 <= i < 11 :: t[i] == h[i];
    assert t[11..11 + n] == e.body;
    assert t[11 + n] == end[0] && t[12 + n] == end[1] && t[13 + n] == end[2] && t[14 + n] == end[3];
  }

  lemma NothingOctets()
    ensures Be24(0) == [0, 0, 0]
  {}

  lemma HeadIs(h: seq<byte>, e: Event, time: nat)
    requires e.Media? && time < TWO_32 && |h| == 11
    requires h == [e.kind] + Be24(|e.body|) + Be24(time) + [time / TWO_24] + Be24(0)
    ensures var a, b, z := Be24(|e.body|), Be24(time), Be24(0);
      && |a| == |b| == |z| == 3
      && h[0] == e.kind && h[1] == a[0] && h[2] == a[1] && h[3] == a[2]
      && h[4] == b[0] && h[5] == b[1] && h[6] == b[2] && h[7] as int == time / TWO_24
      && h[8] == z[0] && h[9] == z[1] && h[10] == z[2]
  {
    assert |Be24(|e.body|)| == |Be24(time)| == |Be24(0)| == 3;
    hide Be24;
  }

  lemma {:induction false} StreamConcat(a: seq<Event>, b: seq<Event>, resume: nat)
    requires forall e <- a :: e.Media?
    ensures Stream(a + b, resume) == Stream(a, resume) + Stream(b, resume)
  {
    hide Tag, Kept;
    if a == [] {
      assert a + b == b;
    } else {
      assert a[0] in a && forall e <- a[1..] :: e in a;
      assert (a + b)[0] == a[0] && (a + b)[1..] == a[1..] + b;
      StreamConcat(a[1..], b, resume);
    }
  }

  /**
   * Which messages are in the stream: all of six octets and more, the audio of two and more, and all metadata. Wherever
   * such a message is in the session before its end, its tag stands between what precedes and what follows.
   */
  lemma MessageInStream(before: seq<Event>, e: Event, after: seq<Event>, resume: nat)
    requires e.Media? && forall b <- before :: b.Media?
    ensures var whole := Stream(before + ([e] + after), resume);
      if |e.body| >= 6 || (e.kind == 8 && |e.body| >= 2) || e.kind == 18 then
        whole == Stream(before, resume) + (Tag(e, resume) + Stream(after, resume))
      else whole == Stream(before, resume) + Stream(after, resume)
  {
    hide Tag;
    StreamConcat(before, [e] + after, resume);
    assert ([e] + after)[1..] == after;
    assert [] + Stream(after, resume) == Stream(after, resume);
  }
}
