/** What each message of the server sets off, by the names on the wire. */
module CallFlow {
  import opened Calls

  /** The next messages will be sent. */
  predicate Healthy(s: Session, n: nat) {
    s.open && |s.outcomes| >= n && forall i | 0 <= i < n :: s.outcomes[i] == Sent
  }

  lemma PostHealthy(s: Session, name: string, txn: int, queued: bool, n: nat)
    requires Healthy(s, n) && n > 0
    ensures var t := Post(s, name, txn, queued);
      && Healthy(t, n - 1) && t.wire == s.wire + [Call(name, txn)] && t.invokes == s.invokes && t.stream == s.stream
      && t.playing == s.playing && t.queue == s.queue + (if queued then [Call(name, txn)] else [])
  {
    assert s.queue + [] == s.queue;
  }

  lemma InvokeHealthy(s: Session, name: string, queued: bool, n: nat)
    requires Healthy(s, n) && n > 0
    ensures var t, c := Invoke(s, name, queued), Call(name, s.invokes + 1);
      && Healthy(t, n - 1) && t.wire == s.wire + [c] && t.invokes == s.invokes + 1 && t.stream == s.stream
      && t.playing == s.playing && t.queue == s.queue + (if queued then [c] else [])
  {
    hide Post;
    PostHealthy(s.(invokes := s.invokes + 1), name, s.invokes + 1, queued, n);
  }

  /** The call the result is for, and the queue without it. */
  predicate ResultFor(s: Session, m: Message, i: nat, name: string) {
    && m.command == "_result" && i < |s.queue| && s.queue[i] == Call(name, m.txn)
    && forall k | 0 <= k < i :: s.queue[k].txn != m.txn
  }

  lemma {:induction false} FirstNumberedIs(q: seq<Call>, txn: int, i: nat)
    requires i < |q| && q[i].txn == txn && forall k | 0 <= k < i :: q[k].txn != txn
    ensures FirstNumbered(q, txn) == i
    decreases i
  {
    if i > 0 {
      assert forall k | 0 <= k < i - 1 :: q[1..][k] == q[k + 1];
      FirstNumberedIs(q[1..], txn, i - 1);
    }
  }

  /** Messages sent, those of them that are awaited, and how many of them took a number. */
  predicate Sends(s: Session, t: Session, sent: seq<Call>, awaited: seq<Call>, numbers: nat) {
    t.open && t.wire == s.wire + sent && t.queue == s.queue + awaited && t.invokes == s.invokes + numbers
  }

  lemma SendsBehind(s: Session, s1: Session, t: Session, first: seq<Call>, sent: seq<Call>, awaited: seq<Call>,
                    numbers: nat)
    requires Sends(s1, t, sent, awaited, numbers) && s1.wire == s.wire + first
    requires s1.queue == s.queue && s1.invokes == s.invokes
    ensures Sends(s, t, first + sent, awaited, numbers)
  {
    assert s.wire + first + sent == s.wire + (first + sent);
  }

  /** What follows the secure token, if there is one. */
  function Following(o: Options, n: nat): (r: (seq<Call>, seq<Call>, nat)) {
    if o.write then
      ([Call("releaseStream", n + 1), Call("FCPublish", n + 2), Call("createStream", n + 3)],
       [Call("createStream", n + 3)], 3)
    else if o.subscribe then
      ([Call("ServerBW", 0), Call("Ctrl", 0), Call("createStream", n + 1), Call("FCSubscribe", n + 2)],
       [Call("createStream", n + 1), Call("FCSubscribe", n + 2)], 2)
    else
      ([Call("ServerBW", 0), Call("Ctrl", 0), Call("createStream", n + 1)], [Call("createStream", n + 1)], 1)
  }

  /**
   * The answer to "connect". Publishing: two calls that are not awaited, and createStream, which is. Playing: two
   * messages, createStream, and a subscription if there is one, both awaited. Before them the secure token, if both
   * sides have it.
   */
  lemma ConnectAnswered(o: Options, s: Session, m: Message, i: nat)
    requires ResultFor(s, m, i, "connect") && Healthy(s, 5)
    ensures var t, was := Handle(o, s, m), s.(queue := s.queue[..i] + s.queue[i + 1..]);
      var (sent, awaited, numbers) := Following(o, s.invokes);
      && t.stream == s.stream && t.playing == s.playing
      && Sends(was, t, (if o.token && m.secured then [Call("secureTokenResponse", 0)] else []) + sent, awaited, numbers)
  {
    hide Post, Invoke, FirstNumbered, Names, AfterConnect, Following, Sends;
    FirstNumberedIs(s.queue, m.txn, i);
    var q := s.queue[..i] + s.queue[i + 1..];
    var s0 := s.(queue := q, log := s.log.(answered := s.log.answered + multiset{"connect"}));
    assert Handle(o, s, m) == AfterConnect(o, s0, m.secured);
    PostHealthy(s0, "secureTokenResponse", 0, false, 5);
    var s1 := if o.token && m.secured then Post(s0, "secureTokenResponse", 0, false) else s0;
    assert q + [] == q && s.wire + [] == s.wire;
    AfterConnectFlow(o, s0, s1, m.secured);
    var (sent, awaited, numbers) := Following(o, s.invokes);
    SendsBehind(s.(queue := q), s1, AfterConnect(o, s0, m.secured),
                if o.token && m.secured then [Call("secureTokenResponse", 0)] else [], sent, awaited, numbers);
  }

  lemma AfterConnectFlow(o: Options, s: Session, s1: Session, secured: bool)
    requires s1 == if o.token && secured then Post(s, "secureTokenResponse", 0, false) else s
    requires Healthy(s1, 4)
    ensures var t := AfterConnect(o, s, secured);
      var (sent, awaited, numbers) := Following(o, s1.invokes);
      t.stream == s1.stream && t.playing == s1.playing && Sends(s1, t, sent, awaited, numbers)
  {
    hide Post, Invoke, Names;
    var a, b;
    if o.write {
      a := Invoke(s1, "releaseStream", false);
      b := Invoke(a, "FCPublish", false);
      InvokeHealthy(s1, "releaseStream", false, 4);
      InvokeHealthy(a, "FCPublish", false, 3);
    } else {
      a := Post(s1, "ServerBW", 0, false);
      b := Post(a, "Ctrl", 0, false);
      PostHealthy(s1, "ServerBW", 0, false, 4);
      PostHealthy(a, "Ctrl", 0, false, 3);
    }
    var c := Invoke(b, "createStream", true);
    InvokeHealthy(b, "createStream", true, 2);
    InvokeHealthy(c, "FCSubscribe", true, 1);
    assert s1.queue + [] == s1.queue;
    var create, subscribe := Call("createStream", b.invokes + 1), Call("FCSubscribe", c.invokes + 1);
    assert c.queue == s1.queue + [create] && c.queue + [subscribe] == s1.queue + [create, subscribe];
  }

  /**
   * The answer to "createStream": the stream's number; and publish, or a playlist if there is one, play and the length
   * of the buffer. The last is not awaited.
   */
  lemma CreateStreamAnswered(o: Options, s: Session, m: Message, i: nat)
    requires ResultFor(s, m, i, "createStream") && Healthy(s, 3)
    ensures var t, n, was := Handle(o, s, m), s.invokes, s.(queue := s.queue[..i] + s.queue[i + 1..]);
      && t.stream == m.value && t.playing == s.playing
      && (if o.write then Sends(was, t, [Call("publish", n + 1)], [Call("publish", n + 1)], 1)
          else
            var list, play := if o.playlist then [Call("set_playlist", 0)] else [], [Call("play", n + 1)];
            Sends(was, t, list + play + [Call("Ctrl", 0)], list + play, 1))
  {
    hide Post, Invoke, FirstNumbered, Names;
    FirstNumberedIs(s.queue, m.txn, i);
    var q := s.queue[..i] + s.queue[i + 1..];
    var s0 := s.(queue := q, log := s.log.(answered := s.log.answered + multiset{"createStream"}), stream := m.value);
    assert Handle(o, s, m) == AfterCreateStream(o, s0);
    InvokeHealthy(s0, "publish", true, 3);
    PostHealthy(s0, "set_playlist", 0, true, 3);
    var s1 := if o.playlist then Post(s0, "set_playlist", 0, true) else s0;
    var s2 := Invoke(s1, "play", true);
    InvokeHealthy(s1, "play", true, 2);
    PostHealthy(s2, "Ctrl", 0, false, 1);
    var list, play := [Call("set_playlist", 0)], [Call("play", s.invokes + 1)];
    assert s2.queue + [] == s2.queue && q + list + play == q + (list + play) && [] + play == play;
    assert s2.wire == s.wire + (if o.playlist then list + play else play);
  }

  /** The answers to "play" and "publish" start the stream, and those to other calls only end their wait. */
  lemma OthersAnswered(o: Options, s: Session, m: Message, i: nat, name: string)
    requires ResultFor(s, m, i, name) && name != "connect" && name != "createStream"
    ensures var t := Handle(o, s, m);
      && t.queue == s.queue[..i] + s.queue[i + 1..] && t.wire == s.wire && t.open == s.open
      && t.playing == (s.playing || name == "play" || name == "publish")
  {
    hide FirstNumbered, Names;
    FirstNumberedIs(s.queue, m.txn, i);
  }

  //
  // Other messages
  //

  /** The status codes that end a connection. */
  const FATAL: set<string> := {
    "NetStream.Failed", "NetStream.Play.Failed", "NetStream.Play.StreamNotFound", "NetConnection.Connect.InvalidApp",
    "NetStream.Play.Complete", "NetStream.Play.Stop", "NetStream.Play.UnpublishNotify"
  }

  predicate Ends(m: Message) {
    m.command == "close" || m.command == "onFCUnsubscribe" || (m.command == "onStatus" && m.code in FATAL)
  }

  lemma NoticeKeeps(s: Session, name: string)
    ensures var t := Notice(s, name);
      t.open == s.open && t.playing == s.playing && t.wire == s.wire && t.invokes == s.invokes
  {}

  lemma FatalExactly(code: string)
    ensures Failing(code) || Finishing(code) <==> code in FATAL
  {}

  /** Other than by a result, the server ends a connection whose socket works exactly with these messages. */
  lemma EndsExactly(o: Options, s: Session, m: Message)
    requires m.command != "_result" && Healthy(s, 1)
    ensures var t := Handle(o, s, m);
      && (t.open <==> !Ends(m))
      && (Ends(m) ==> t.queue == [] && !t.playing && t.stream == -1)
  {
    hide Post, Invoke, Notice, Failing, Finishing, FATAL, Names;
    FatalExactly(m.code);
    InvokeHealthy(s, "_checkbw", false, 1);
    InvokeHealthy(s, "pause", true, 1);
    PostHealthy(s, "pong", m.txn, false, 1);
    PostHealthy(s.(checks := s.checks + 1), "_result", m.txn, false, 1);
    NoticeKeeps(s, "_checkbw");
    NoticeKeeps(s, "set_playlist");
    NoticeKeeps(s.(playing := true), "play");
    NoticeKeeps(s.(playing := true), "publish");
  }

  /** The name a message strikes off the queue. */
  function Struck(m: Message): string {
    if m.command == "_onbwdone" then "_checkbw"
    else if m.command == "playlist_ready" then "set_playlist"
    else if m.command == "onStatus" && m.code in {"NetStream.Play.Start", "NetStream.Play.PublishNotify"} then "play"
    else if m.command == "onStatus" && m.code == "NetStream.Publish.Start" then "publish"
    else ""
  }

  lemma {:induction false} FirstNamedIs(q: seq<Call>, name: string, i: nat)
    requires i < |q| && q[i].name == name && forall k | 0 <= k < i :: q[k].name != name
    ensures FirstNamed(q, name) == i
    decreases i
  {
    if i > 0 {
      assert forall k | 0 <= k < i - 1 :: q[1..][k] == q[k + 1];
      FirstNamedIs(q[1..], name, i - 1);
    }
  }

  lemma NoticeStrikes(s: Session, name: string, i: nat)
    requires i < |s.queue| && s.queue[i].name == name && forall k | 0 <= k < i :: s.queue[k].name != name
    ensures var t := Notice(s, name);
      t.queue == s.queue[..i] + s.queue[i + 1..] && t.log.noticed == s.log.noticed + multiset{name}
      && t.playing == s.playing
  {
    hide FirstNamed;
    FirstNamedIs(s.queue, name, i);
  }

  /** Such a message takes the first call of that name from the queue; those about a stream say that it plays, too. */
  lemma StrikesFirst(o: Options, s: Session, m: Message, i: nat)
    requires Struck(m) != "" && i < |s.queue| && s.queue[i].name == Struck(m)
    requires forall k | 0 <= k < i :: s.queue[k].name != Struck(m)
    ensures var t := Handle(o, s, m);
      && t.queue == s.queue[..i] + s.queue[i + 1..] && t.log.noticed == s.log.noticed + multiset{Struck(m)}
      && t.playing == (s.playing || m.command == "onStatus")
  {
    hide Notice, FATAL, Names, Close;
    FatalExactly(m.code);
    assert Struck(m) in {"play", "publish"} ==> !Failing(m.code) && !Finishing(m.code);
    NoticeStrikes(s, Struck(m), i);
    NoticeStrikes(s.(playing := true), Struck(m), i);
  }

  /** What is sent in return: a bandwidth check the first time, and an answer to a ping and to a check of the server. */
  lemma SendsInReturn(o: Options, s: Session, m: Message)
    requires m.command in {"onBWDone", "ping", "_onbwcheck"} && Healthy(s, 1)
    ensures var t := Handle(o, s, m);
      && t.queue == s.queue && t.open
      && t.wire == s.wire + (if m.command == "ping" then [Call("pong", m.txn)]
                             else if m.command == "_onbwcheck" then [Call("_result", m.txn)]
                             else if s.checks == 0 then [Call("_checkbw", s.invokes + 1)] else [])
      && t.checks == s.checks + (if m.command == "_onbwcheck" then 1 else 0)
  {
    hide Post, Invoke;
    InvokeHealthy(s, "_checkbw", false, 1);
    PostHealthy(s, "pong", m.txn, false, 1);
    PostHealthy(s.(checks := s.checks + 1), "_result", m.txn, false, 1);
    ChecksStay(s, m);
    assert s.queue + [] == s.queue && s.wire + [] == s.wire;
  }

  lemma ChecksStay(s: Session, m: Message)
    requires Healthy(s, 1)
    ensures Invoke(s, "_checkbw", false).checks == s.checks && Post(s, "pong", m.txn, false).checks == s.checks
    ensures Post(s.(checks := s.checks + 1), "_result", m.txn, false).checks == s.checks + 1
  {}

  /** A pause the server confirms is taken back once: what is sent, and that it is not sent again. */
  lemma PauseTakenBack(o: Options, s: Session, m: Message)
    requires m.command == "onStatus" && m.code == "NetStream.Pause.Notify" && Healthy(s, 1)
    ensures var t, c := Handle(o, s, m), [Call("pause", s.invokes + 1)];
      if s.pausing == 1 || s.pausing == 2 then t.wire == s.wire + c && t.queue == s.queue + c && t.pausing == 3
      else t == s
  {
    hide Post, Invoke;
    InvokeHealthy(s, "pause", true, 1);
  }
}
