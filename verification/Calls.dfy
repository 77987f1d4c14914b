/** The queue of remote calls awaiting their results, over a whole connection. */
module Calls {

  datatype Call = Call(name: string, txn: int)

  /** What becomes of a message handed to the socket: sent, not taken, or the end of the connection. */
  datatype Outcome = Sent | Lost | Broken

  /** Calls by what became of them: queued; answered by number; struck off by name; dropped at the close. */
  datatype Log = Log(queued: multiset<string>, answered: multiset<string>, noticed: multiset<string>,
                     dropped: multiset<string>)

  /** What the user asked for: publishing, a secure token, a subscription, a playlist. */
  datatype Options = Options(write: bool, token: bool, subscribe: bool, playlist: bool)

  /** `wire` is what the socket has taken so far. */
  datatype Session = Session(queue: seq<Call>, wire: seq<Call>, invokes: nat, outcomes: seq<Outcome>, open: bool,
                             playing: bool, stream: int, checks: nat, pausing: int, log: Log)

  function Started(outcomes: seq<Outcome>): Session {
    Session([], [], 0, outcomes, true, false, -1, 0, 0, Log(multiset{}, multiset{}, multiset{}, multiset{}))
  }

  function Names(q: seq<Call>): multiset<string> {
    if q == [] then multiset{} else multiset{q[0].name} + Names(q[1..])
  }

  function Close(s: Session): Session {
    s.(queue := [], invokes := 0, open := false, playing := false, stream := -1, checks := 0,
       log := s.log.(dropped := s.log.dropped + Names(s.queue)))
  }

  /** Sends a message, and queues the call it carries if it is to be and was sent. */
  function Post(s: Session, name: string, txn: int, queued: bool): Session {
    var outcome := if s.open && s.outcomes != [] then s.outcomes[0] else Broken;
    var t := s.(outcomes := if s.outcomes == [] then [] else s.outcomes[1..]);
    if outcome.Broken? then Close(t)
    else if outcome.Lost? then t
    else
      var t := t.(wire := t.wire + [Call(name, txn)]);
      if !queued then t
      else t.(queue := t.queue + [Call(name, txn)], log := t.log.(queued := t.log.queued + multiset{name}))
  }

  /** A call under the next number. */
  function Invoke(s: Session, name: string, queued: bool): Session {
    Post(s.(invokes := s.invokes + 1), name, s.invokes + 1, queued)
  }

  function FirstNumbered(q: seq<Call>, txn: int): (i: nat)
    ensures i <= |q| && (i < |q| ==> q[i].txn == txn)
  {
    if q == [] || q[0].txn == txn then 0 else 1 + FirstNumbered(q[1..], txn)
  }

  function FirstNamed(q: seq<Call>, name: string): (i: nat)
    ensures i <= |q| && (i < |q| ==> q[i].name == name)
  {
    if q == [] || q[0].name == name then 0 else 1 + FirstNamed(q[1..], name)
  }

  function Without(q: seq<Call>, i: nat): seq<Call>
    requires i < |q|
  {
    q[..i] + q[i + 1..]
  }

  /** Strikes off the first call of a name. */
  function Notice(s: Session, name: string): Session {
    var i := FirstNamed(s.queue, name);
    if i == |s.queue| then s
    else s.(queue := Without(s.queue, i), log := s.log.(noticed := s.log.noticed + multiset{name}))
  }

  /** A message from the server, as far as it is looked at; is there a secure token in it? */
  datatype Message = Message(command: string, txn: int, value: int, code: string, secured: bool)

  function AfterConnect(o: Options, s: Session, secured: bool): Session {
    var s1 := if o.token && secured then Post(s, "secureTokenResponse", 0, false) else s;
    var s2 := if o.write then Invoke(Invoke(s1, "releaseStream", false), "FCPublish", false)
              else Post(Post(s1, "ServerBW", 0, false), "Ctrl", 0, false);
    var s3 := Invoke(s2, "createStream", true);
    if !o.write && o.subscribe then Invoke(s3, "FCSubscribe", true) else s3
  }

  function AfterCreateStream(o: Options, s: Session): Session {
    if o.write then Invoke(s, "publish", true)
    else
      var s1 := if o.playlist then Post(s, "set_playlist", 0, true) else s;
      Post(Invoke(s1, "play", true), "Ctrl", 0, false)
  }

  /** A result is for the first call of its number, and leads to what follows that call. */
  function Answer(o: Options, s: Session, m: Message): Session {
    var i := FirstNumbered(s.queue, m.txn);
    if i == |s.queue| then s
    else
      var name := s.queue[i].name;
      var t := s.(queue := Without(s.queue, i), log := s.log.(answered := s.log.answered + multiset{name}));
      if name == "connect" then AfterConnect(o, t, m.secured)
      else if name == "createStream" then AfterCreateStream(o, t.(stream := m.value))
      else if name == "play" || name == "publish" then t.(playing := true)
      else t
  }

  predicate Failing(code: string) {
    || code == "NetStream.Failed" || code == "NetStream.Play.Failed" || code == "NetStream.Play.StreamNotFound"
    || code == "NetConnection.Connect.InvalidApp"
  }

  predicate Finishing(code: string) {
    code == "NetStream.Play.Complete" || code == "NetStream.Play.Stop" || code == "NetStream.Play.UnpublishNotify"
  }

  function StatusChanged(s: Session, code: string): Session {
    if Failing(code) || Finishing(code) then Close(s)
    else if code == "NetStream.Play.Start" || code == "NetStream.Play.PublishNotify" then
      Notice(s.(playing := true), "play")
    else if code == "NetStream.Publish.Start" then Notice(s.(playing := true), "publish")
    else if code == "NetStream.Pause.Notify" && (s.pausing == 1 || s.pausing == 2) then
      Invoke(s, "pause", true).(pausing := 3)
    else s
  }

  function Handle(o: Options, s: Session, m: Message): Session {
    if m.command == "_result" then Answer(o, s, m)
    else if m.command == "onBWDone" then if s.checks == 0 then Invoke(s, "_checkbw", false) else s
    else if m.command == "onFCUnsubscribe" || m.command == "close" then Close(s)
    else if m.command == "ping" then Post(s, "pong", m.txn, false)
    else if m.command == "_onbwcheck" then Post(s.(checks := s.checks + 1), "_result", m.txn, false)
    else if m.command == "_onbwdone" then Notice(s, "_checkbw")
    else if m.command == "onStatus" then StatusChanged(s, m.code)
    else if m.command == "playlist_ready" then Notice(s, "set_playlist")
    else s
  }

  /** The user makes a numbered call, or the server sends a message. */
  datatype Event = Request(name: string) | Received(m: Message)

  function Step(o: Options, s: Session, e: Event): Session {
    match e
    case Request(name) => Invoke(s, name, true)
    case Received(m) => Handle(o, s, m)
  }

  function Run(o: Options, s: Session, events: seq<Event>): Session {
    if events == [] then s else Step(o, Run(o, s, events[..|events| - 1]), events[|events| - 1])
  }

  //
  // What every run keeps
  //

  /** Every call of a name that was queued is outstanding, answered, struck off or dropped. */
  predicate Balanced(s: Session, n: string) {
    s.log.queued[n] == Names(s.queue)[n] + s.log.answered[n] + s.log.noticed[n] + s.log.dropped[n]
  }

  lemma {:induction false} NamesConcat(a: seq<Call>, b: seq<Call>, n: string)
    ensures Names(a + b)[n] == Names(a)[n] + Names(b)[n]
  {
    if a == [] {
      assert a + b == b;
    } else {
      assert (a + b)[1..] == a[1..] + b;
      NamesConcat(a[1..], b, n);
    }
  }

  lemma NamesOfOne(c: Call, n: string)
    ensures Names([c])[n] == if c.name == n then 1 else 0
  {
    assert [c][1..] == [];
  }

  lemma NamesWithout(q: seq<Call>, i: nat, n: string)
    requires i < |q|
    ensures Names(q)[n] == Names(Without(q, i))[n] + if q[i].name == n then 1 else 0
  {
    hide Names;
    assert q == q[..i] + ([q[i]] + q[i + 1..]);
    NamesConcat(q[..i], [q[i]] + q[i + 1..], n);
    NamesConcat([q[i]], q[i + 1..], n);
    NamesConcat(q[..i], q[i + 1..], n);
    NamesOfOne(q[i], n);
  }

  /** What one step may do to the history of a name: `queued` more calls, `answered` more answers. */
  predicate Moves(s: Session, t: Session, n: string, queued: nat, answered: nat) {
    && (Balanced(s, n) ==> Balanced(t, n))
    && s.log.queued[n] <= t.log.queued[n] <= s.log.queued[n] + queued
    && t.log.answered[n] == s.log.answered[n] + answered
  }

  lemma CloseMoves(s: Session, n: string)
    ensures Moves(s, Close(s), n, 0, 0)
  {}

  lemma PostMoves(s: Session, name: string, txn: int, queued: bool, n: string)
    ensures Moves(s, Post(s, name, txn, queued), n, if queued && name == n then 1 else 0, 0)
  {
    hide Names;
    var t := s.(outcomes := if s.outcomes == [] then [] else s.outcomes[1..]);
    CloseMoves(t, n);
    NamesConcat(s.queue, [Call(name, txn)], n);
    NamesOfOne(Call(name, txn), n);
  }

  lemma InvokeMoves(s: Session, name: string, queued: bool, n: string)
    ensures Moves(s, Invoke(s, name, queued), n, if queued && name == n then 1 else 0, 0)
  {
    hide Post, Names;
    PostMoves(s.(invokes := s.invokes + 1), name, s.invokes + 1, queued, n);
  }

  lemma NoticeMoves(s: Session, name: string, n: string)
    ensures Moves(s, Notice(s, name), n, 0, 0)
  {
    hide Names, Without;
    var i := FirstNamed(s.queue, name);
    if i < |s.queue| { NamesWithout(s.queue, i, n); }
  }

  lemma AfterConnectMoves(o: Options, s: Session, secured: bool, n: string)
    ensures Moves(s, AfterConnect(o, s, secured), n, if n == "createStream" || n == "FCSubscribe" then 1 else 0, 0)
  {
    hide Post, Invoke, Balanced;
    PostMoves(s, "secureTokenResponse", 0, false, n);
    var s1 := if o.token && secured then Post(s, "secureTokenResponse", 0, false) else s;
    InvokeMoves(s1, "releaseStream", false, n);
    InvokeMoves(Invoke(s1, "releaseStream", false), "FCPublish", false, n);
    PostMoves(s1, "ServerBW", 0, false, n);
    PostMoves(Post(s1, "ServerBW", 0, false), "Ctrl", 0, false, n);
    var s2 := if o.write then Invoke(Invoke(s1, "releaseStream", false), "FCPublish", false)
              else Post(Post(s1, "ServerBW", 0, false), "Ctrl", 0, false);
    InvokeMoves(s2, "createStream", true, n);
    InvokeMoves(Invoke(s2, "createStream", true), "FCSubscribe", true, n);
  }

  lemma AfterCreateStreamMoves(o: Options, s: Session, n: string)
    ensures Moves(s, AfterCreateStream(o, s), n,
                  if n == (if o.write then "publish" else "play") || n == "set_playlist" then 1 else 0, 0)
  {
    hide Post, Invoke, Balanced;
    InvokeMoves(s, "publish", true, n);
    PostMoves(s, "set_playlist", 0, true, n);
    var s1 := if o.playlist then Post(s, "set_playlist", 0, true) else s;
    InvokeMoves(s1, "play", true, n);
    PostMoves(Invoke(s1, "play", true), "Ctrl", 0, false, n);
  }

  /** The name answered by a message, if it answers any. */
  function Answered(s: Session, m: Message): seq<string> {
    var i := FirstNumbered(s.queue, m.txn);
    if m.command != "_result" || i == |s.queue| then [] else [s.queue[i].name]
  }

  /** How many calls of name `n` a message may set off: one, and that only by answering the call before it. */
  function SetOff(o: Options, answered: seq<string>, n: string): nat {
    if answered == ["connect"] && (n == "createStream" || n == "FCSubscribe") then 1
    else if answered == ["createStream"] && (n == (if o.write then "publish" else "play") || n == "set_playlist") then 1
    else if answered == [] && n == "pause" then 1
    else 0
  }

  lemma AnswerMoves(o: Options, s: Session, m: Message, n: string)
    requires m.command == "_result"
    ensures var a := Answered(s, m);
      Moves(s, Answer(o, s, m), n, SetOff(o, a, n), if a == [n] then 1 else 0)
  {
    hide Names, Without, AfterConnect, AfterCreateStream;
    var i := FirstNumbered(s.queue, m.txn);
    if i < |s.queue| {
      var name := s.queue[i].name;
      NamesWithout(s.queue, i, n);
      var t := s.(queue := Without(s.queue, i), log := s.log.(answered := s.log.answered + multiset{name}));
      AfterConnectMoves(o, t, m.secured, n);
      AfterCreateStreamMoves(o, t.(stream := m.value), n);
    }
  }

  lemma StatusMoves(s: Session, code: string, n: string)
    ensures Moves(s, StatusChanged(s, code), n, if n == "pause" then 1 else 0, 0)
  {
    hide Names, Post, Invoke, Notice, Close, Failing, Finishing;
    CloseMoves(s, n);
    NoticeMoves(s.(playing := true), "play", n);
    NoticeMoves(s.(playing := true), "publish", n);
    InvokeMoves(s, "pause", true, n);
  }

  lemma HandleMoves(o: Options, s: Session, m: Message, n: string)
    ensures var a := Answered(s, m);
      Moves(s, Handle(o, s, m), n, SetOff(o, a, n), if a == [n] then 1 else 0)
  {
    hide Names, Post, Invoke, Notice, Close, Answer, StatusChanged, FirstNumbered;
    if m.command == "_result" {
      AnswerMoves(o, s, m, n);
    } else {
      CloseMoves(s, n);
      StatusMoves(s, m.code, n);
      InvokeMoves(s, "_checkbw", false, n);
      PostMoves(s, "pong", m.txn, false, n);
      PostMoves(s.(checks := s.checks + 1), "_result", m.txn, false, n);
      NoticeMoves(s, "_checkbw", n);
      NoticeMoves(s, "set_playlist", n);
    }
  }

  /** The user leaves creating, publishing and playing streams to the library. */
  predicate LeftToLibrary(e: Event) {
    e.Request? ==> e.name != "createStream" && e.name != "publish" && e.name != "play"
  }

  /** No stream is published or played before one is created, nor created before the connection is answered. */
  predicate InOrder(s: Session) {
    && s.log.queued["publish"] + s.log.queued["play"] <= s.log.answered["createStream"] <= s.log.queued["createStream"]
    && s.log.queued["createStream"] <= s.log.answered["connect"] <= s.log.queued["connect"]
  }

  lemma StepMoves(o: Options, s: Session, e: Event, n: string)
    ensures var a := if e.Request? then [] else Answered(s, e.m);
      Moves(s, Step(o, s, e), n, if e.Request? then if e.name == n then 1 else 0 else SetOff(o, a, n),
            if a == [n] then 1 else 0)
  {
    hide Invoke, Handle, Answered;
    match e
    case Request(name) => InvokeMoves(s, name, true, n);
    case Received(m) => HandleMoves(o, s, m, n);
  }

  /** For every run, whatever the server sends and whatever the socket does. */
  lemma {:induction false} RunBalanced(o: Options, outcomes: seq<Outcome>, events: seq<Event>, n: string)
    ensures Balanced(Run(o, Started(outcomes), events), n)
  {
    hide Step, Names, SetOff, Answered;
    var s := Run(o, Started(outcomes), events);
    if events == [] {
      StartBalanced(outcomes, n);
    } else {
      RunBalanced(o, outcomes, events[..|events| - 1], n);
      StepMoves(o, Run(o, Started(outcomes), events[..|events| - 1]), events[|events| - 1], n);
    }
  }

  lemma StartBalanced(outcomes: seq<Outcome>, n: string)
    ensures Balanced(Started(outcomes), n)
  {}

  lemma StepInOrder(o: Options, s: Session, e: Event)
    requires LeftToLibrary(e)
    requires Balanced(s, "createStream") && Balanced(s, "connect") && InOrder(s)
    ensures InOrder(Step(o, s, e))
  {
    hide Step, Names, Answered;
    StepMoves(o, s, e, "publish");
    StepMoves(o, s, e, "play");
    StepMoves(o, s, e, "createStream");
    StepMoves(o, s, e, "connect");
  }

  lemma {:induction false} RunInOrder(o: Options, outcomes: seq<Outcome>, events: seq<Event>)
    requires forall e <- events :: LeftToLibrary(e)
    ensures InOrder(Run(o, Started(outcomes), events))
  {
    hide Step, Balanced, LeftToLibrary, InOrder;
    if events == [] {
      StartInOrder(outcomes);
    } else {
      var before := events[..|events| - 1];
      RunBalanced(o, outcomes, before, "createStream");
      RunBalanced(o, outcomes, before, "connect");
      assert events[|events| - 1] in events;
      RunInOrder(o, outcomes, before);
      StepInOrder(o, Run(o, Started(outcomes), before), events[|events| - 1]);
    }
  }

  lemma StartInOrder(outcomes: seq<Outcome>)
    ensures InOrder(Started(outcomes))
  {}

  //
  // Numbers
  //

  /** Calls are queued in the order of their numbers, which are not handed out twice; a playlist's is 0. */
  predicate Numbered(s: Session) {
    && (forall i | 0 <= i < |s.queue| :: 0 <= s.queue[i].txn <= s.invokes)
    && (forall i, j | 0 <= i < j < |s.queue| ::
          s.queue[i].txn != 0 && s.queue[j].txn != 0 ==> s.queue[i].txn < s.queue[j].txn)
  }

  lemma WithoutNumbered(s: Session, i: nat)
    requires Numbered(s) && i < |s.queue|
    ensures Numbered(s.(queue := Without(s.queue, i)))
  {
    var q, w := s.queue, Without(s.queue, i);
    assert forall k | 0 <= k < |w| :: w[k] == if k < i then q[k] else q[k + 1];
  }

  lemma PostNumbered(s: Session, name: string, txn: int, queued: bool)
    requires Numbered(s)
    requires queued ==> txn == 0 || (txn == s.invokes && forall c <- s.queue :: c.txn < txn)
    ensures Numbered(Post(s, name, txn, queued))
  {}

  lemma InvokeNumbered(s: Session, name: string, queued: bool)
    requires Numbered(s)
    ensures Numbered(Invoke(s, name, queued))
  {
    PostNumbered(s.(invokes := s.invokes + 1), name, s.invokes + 1, queued);
  }

  lemma NoticeNumbered(s: Session, name: string)
    requires Numbered(s)
    ensures Numbered(Notice(s, name))
  {
    hide Without;
    var i := FirstNamed(s.queue, name);
    if i < |s.queue| { WithoutNumbered(s, i); }
  }

  lemma AfterConnectNumbered(o: Options, s: Session, secured: bool)
    requires Numbered(s)
    ensures Numbered(AfterConnect(o, s, secured))
  {
    hide Post, Invoke, Numbered;
    PostNumbered(s, "secureTokenResponse", 0, false);
    var s1 := if o.token && secured then Post(s, "secureTokenResponse", 0, false) else s;
    if o.write {
      InvokeNumbered(s1, "releaseStream", false);
      InvokeNumbered(Invoke(s1, "releaseStream", false), "FCPublish", false);
    } else {
      PostNumbered(s1, "ServerBW", 0, false);
      PostNumbered(Post(s1, "ServerBW", 0, false), "Ctrl", 0, false);
    }
    var s2 := if o.write then Invoke(Invoke(s1, "releaseStream", false), "FCPublish", false)
              else Post(Post(s1, "ServerBW", 0, false), "Ctrl", 0, false);
    InvokeNumbered(s2, "createStream", true);
    InvokeNumbered(Invoke(s2, "createStream", true), "FCSubscribe", true);
  }

  lemma AfterCreateStreamNumbered(o: Options, s: Session)
    requires Numbered(s)
    ensures Numbered(AfterCreateStream(o, s))
  {
    hide Post, Invoke, Numbered;
    InvokeNumbered(s, "publish", true);
    PostNumbered(s, "set_playlist", 0, true);
    var s1 := if o.playlist then Post(s, "set_playlist", 0, true) else s;
    InvokeNumbered(s1, "play", true);
    PostNumbered(Invoke(s1, "play", true), "Ctrl", 0, false);
  }

  lemma AnswerNumbered(o: Options, s: Session, m: Message)
    requires Numbered(s)
    ensures Numbered(Answer(o, s, m))
  {
    hide Without, AfterConnect, AfterCreateStream;
    var i := FirstNumbered(s.queue, m.txn);
    if i < |s.queue| {
      WithoutNumbered(s, i);
      var name := s.queue[i].name;
      var t := s.(queue := Without(s.queue, i), log := s.log.(answered := s.log.answered + multiset{name}));
      AfterConnectNumbered(o, t, m.secured);
      AfterCreateStreamNumbered(o, t.(stream := m.value));
    }
  }

  lemma StepNumbered(o: Options, s: Session, e: Event)
    requires Numbered(s)
    ensures Numbered(Step(o, s, e))
  {
    hide Post, Invoke, Notice, Answer;
    match e
    case Request(name) => InvokeNumbered(s, name, true);
    case Received(m) =>
      AnswerNumbered(o, s, m);
      InvokeNumbered(s, "_checkbw", false);
      InvokeNumbered(s, "pause", true);
      PostNumbered(s, "pong", m.txn, false);
      PostNumbered(s.(checks := s.checks + 1), "_result", m.txn, false);
      NoticeNumbered(s, "_checkbw");
      NoticeNumbered(s, "set_playlist");
      NoticeNumbered(s.(playing := true), "play");
      NoticeNumbered(s.(playing := true), "publish");
  }

  /** In every run, a number other than 0 is that of at most one call outstanding: its result cannot go astray. */
  lemma {:induction false} RunNumbered(o: Options, outcomes: seq<Outcome>, events: seq<Event>)
    ensures var s := Run(o, Started(outcomes), events);
      && Numbered(s)
      && forall i | 0 <= i < |s.queue| && s.queue[i].txn != 0 :: FirstNumbered(s.queue, s.queue[i].txn) == i
  {
    hide Step;
    if events != [] {
      RunNumbered(o, outcomes, events[..|events| - 1]);
      StepNumbered(o, Run(o, Started(outcomes), events[..|events| - 1]), events[|events| - 1]);
    }
    var s := Run(o, Started(outcomes), events);
    forall i | 0 <= i < |s.queue| && s.queue[i].txn != 0 ensures FirstNumbered(s.queue, s.queue[i].txn) == i {
      FirstIsOnly(s, i);
    }
  }

  lemma FirstIsOnly(s: Session, i: nat)
    requires Numbered(s) && i < |s.queue| && s.queue[i].txn != 0
    ensures FirstNumbered(s.queue, s.queue[i].txn) == i
  {
    FoundByThen(s.queue, i);
    var k := FirstNumbered(s.queue, s.queue[i].txn);
    assert k <= i;
  }

  lemma {:induction false} FoundByThen(q: seq<Call>, i: nat)
    requires i < |q|
    ensures FirstNumbered(q, q[i].txn) <= i
  {
    if i > 0 && q[0].txn != q[i].txn { FoundByThen(q[1..], i - 1); }
  }
}
