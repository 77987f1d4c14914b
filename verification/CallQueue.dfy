/** The call queue as it is kept: an array grown by sixteen entries at a time, searched and closed up in place. */
module CallQueue {
  import opened Calls
  import opened Memory

  /** Each of the entries from `at` on takes the place of the one before it. */
  method MoveUp(a: array<Call>, at: nat, last: nat)
    requires at <= last < a.Length
    modifies a
    ensures a[..at] == old(a[..at]) && a[at..last] == old(a[at + 1..last + 1])
  {
    var i := at;
    while i < last
      invariant at <= i <= last
      invariant forall k | 0 <= k < at :: a[k] == old(a[k])
      invariant forall k | at <= k < i :: a[k] == old(a[k + 1])
      invariant forall k | i <= k <= last :: a[k] == old(a[k])
    {
      a[i] := a[i + 1];
      i := i + 1;
    }
  }

  class Connection {
    var vals: array<Call>
    var num: nat
    var wire: seq<Call>
    var invokes: nat
    var outcomes: seq<Outcome>
    var open: bool
    var playing: bool
    var stream: int
    var checks: nat
    var pausing: int
    ghost var log: Log

    /** Between two multiples of sixteen there is room up to the next one, whatever was erased since. */
    ghost predicate Valid()
      reads this
    {
      Roomy(num, vals.Length)
    }

    ghost function Value(): Session
      reads this, vals
      requires Valid()
    {
      Session(vals[..num], wire, invokes, outcomes, open, playing, stream, checks, pausing, log)
    }

    constructor (outcomes: seq<Outcome>)
      ensures Valid() && fresh(vals) && Value() == Started(outcomes)
    {
      vals, num, wire := new Call[0], 0, [];
      invokes, this.outcomes, open, playing, stream, checks, pausing := 0, outcomes, true, false, -1, 0, 0;
      log := Log(multiset{}, multiset{}, multiset{}, multiset{});
    }

    /** Takes out one entry and moves the later ones up. */
    method Erase(at: nat)
      requires Valid() && at < num
      modifies this`num, vals
      ensures Valid() && vals[..num] == Without(old(vals[..num]), at)
    {
      ghost var was := vals[..num];
      num := num - 1;
      MoveUp(vals, at, num);
      vals[num] := Call("", 0);
      assert vals[..at] == was[..at] && vals[at..num] == was[at + 1..];
      assert vals[..num] == vals[..at] + vals[at..num];
    }

    /** Appends an entry; only on a multiple of sixteen is the array made longer, or shorter, first. */
    method Queue(name: string, txn: int)
      requires Valid()
      modifies this`num, this`vals, vals
      ensures Valid() && (vals == old(vals) || fresh(vals))
      ensures vals[..num] == old(vals[..num]) + [Call(name, txn)]
    {
      vals := Grown(vals, num, Call("", 0));
      vals[num] := Call(name, txn);
      num := num + 1;
    }

    method FindNumber(txn: int) returns (i: nat)
      requires Valid()
      ensures i == FirstNumbered(vals[..num], txn)
    {
      i := 0;
      while i < num
        invariant 0 <= i <= num && FirstNumbered(vals[..num], txn) == i + FirstNumbered(vals[i..num], txn)
      {
        assert vals[i..num][1..] == vals[i + 1..num];
        if vals[i].txn == txn { break; }
        i := i + 1;
      }
    }

    method FindName(name: string) returns (i: nat)
      requires Valid()
      ensures i == FirstNamed(vals[..num], name)
    {
      i := 0;
      while i < num
        invariant 0 <= i <= num && FirstNamed(vals[..num], name) == i + FirstNamed(vals[i..num], name)
      {
        assert vals[i..num][1..] == vals[i + 1..num];
        if vals[i].name == name { break; }
        i := i + 1;
      }
    }

    method CloseDown()
      requires Valid()
      modifies this
      ensures Valid() && (vals == old(vals) || fresh(vals)) && Value() == Close(old(Value()))
    {
      hide Names;
      log := log.(dropped := log.dropped + Names(vals[..num]));
      stream, checks := -1, 0;
      vals, num := new Call[0], 0;
      invokes, playing, open := 0, false, false;
    }

    /** Hands a packet to the socket, and queues the call it carries. */
    method SendPacket(name: string, txn: int, queued: bool)
      requires Valid()
      modifies this, vals
      ensures Valid() && (vals == old(vals) || fresh(vals)) && Value() == Post(old(Value()), name, txn, queued)
    {
      hide Close, Without;
      var outcome := if open && outcomes != [] then outcomes[0] else Broken;
      if outcomes != [] { outcomes := outcomes[1..]; }
      if outcome.Broken? {
        CloseDown();
      } else if outcome.Sent? {
        wire := wire + [Call(name, txn)];
        if queued {
          Queue(name, txn);
          log := log.(queued := log.queued + multiset{name});
        }
      }
    }

    method SendCall(name: string, queued: bool)
      requires Valid()
      modifies this, vals
      ensures Valid() && (vals == old(vals) || fresh(vals)) && Value() == Invoke(old(Value()), name, queued)
    {
      hide Post;
      invokes := invokes + 1;
      SendPacket(name, invokes, queued);
    }

    method Strike(name: string)
      requires Valid()
      modifies this`num, this`log, vals
      ensures Valid() && Value() == Notice(old(Value()), name)
    {
      hide FirstNamed, Without;
      var i := FindName(name);
      if i < num {
        Erase(i);
        log := log.(noticed := log.noticed + multiset{name});
      }
    }

    method Connected(o: Options, secured: bool)
      requires Valid()
      modifies this, vals
      ensures Valid() && (vals == old(vals) || fresh(vals)) && Value() == AfterConnect(o, old(Value()), secured)
    {
      hide Post, Invoke;
      if o.token {
        if secured { SendPacket("secureTokenResponse", 0, false); }
      }
      if o.write {
        SendCall("releaseStream", false);
        SendCall("FCPublish", false);
      } else {
        SendPacket("ServerBW", 0, false);
        SendPacket("Ctrl", 0, false);
      }
      SendCall("createStream", true);
      if !o.write {
        if o.subscribe { SendCall("FCSubscribe", true); }
      }
    }

    method StreamCreated(o: Options)
      requires Valid()
      modifies this, vals
      ensures Valid() && (vals == old(vals) || fresh(vals)) && Value() == AfterCreateStream(o, old(Value()))
    {
      hide Post, Invoke;
      if o.write {
        SendCall("publish", true);
      } else {
        if o.playlist { SendPacket("set_playlist", 0, true); }
        SendCall("play", true);
        SendPacket("Ctrl", 0, false);
      }
    }

    method HandleResult(o: Options, m: Message)
      requires Valid()
      modifies this, vals
      ensures Valid() && (vals == old(vals) || fresh(vals)) && Value() == Answer(o, old(Value()), m)
    {
      hide FirstNumbered, Without, AfterConnect, AfterCreateStream;
      var i := FindNumber(m.txn);
      if i == num { return; }
      var name := vals[i].name;
      Erase(i);
      log := log.(answered := log.answered + multiset{name});
      if name == "connect" {
        Connected(o, m.secured);
      } else if name == "createStream" {
        stream := m.value;
        StreamCreated(o);
      } else if name == "play" || name == "publish" {
        playing := true;
      }
    }

    method HandleStatus(code: string)
      requires Valid()
      modifies this, vals
      ensures Valid() && (vals == old(vals) || fresh(vals)) && Value() == StatusChanged(old(Value()), code)
    {
      hide Invoke, Notice, Close;
      if code == "NetStream.Failed" || code == "NetStream.Play.Failed" || code == "NetStream.Play.StreamNotFound"
         || code == "NetConnection.Connect.InvalidApp" {
        CloseDown();
      } else if code == "NetStream.Play.Start" || code == "NetStream.Play.PublishNotify" {
        playing := true;
        Strike("play");
      } else if code == "NetStream.Publish.Start" {
        playing := true;
        Strike("publish");
      } else if code == "NetStream.Play.Complete" || code == "NetStream.Play.Stop"
                || code == "NetStream.Play.UnpublishNotify" {
        CloseDown();
      } else if code == "NetStream.Pause.Notify" {
        if pausing == 1 || pausing == 2 {
          SendCall("pause", true);
          pausing := 3;
        }
      }
    }

    /** What a message from the server does to the connection. */
    method HandleInvoke(o: Options, m: Message)
      requires Valid()
      modifies this, vals
      ensures Valid() && (vals == old(vals) || fresh(vals)) && Value() == Handle(o, old(Value()), m)
    {
      hide Post, Invoke, Notice, Close, Answer, StatusChanged;
      if m.command == "_result" {
        HandleResult(o, m);
      } else if m.command == "onBWDone" {
        if checks == 0 { SendCall("_checkbw", false); }
      } else if m.command == "onFCUnsubscribe" {
        CloseDown();
      } else if m.command == "ping" {
        SendPacket("pong", m.txn, false);
      } else if m.command == "_onbwcheck" {
        checks := checks + 1;
        SendPacket("_result", m.txn, false);
      } else if m.command == "_onbwdone" {
        Strike("_checkbw");
      } else if m.command == "close" {
        CloseDown();
      } else if m.command == "onStatus" {
        HandleStatus(m.code);
      } else if m.command == "playlist_ready" {
        Strike("set_playlist");
      }
    }
  }

  /** A whole connection: the calls the user makes, and the messages the server sends, as they come. */
  method Serve(o: Options, outcomes: seq<Outcome>, events: seq<Event>) returns (c: Connection)
    requires forall e <- events :: LeftToLibrary(e)
    ensures c.Valid() && c.Value() == Run(o, Started(outcomes), events)
    ensures InOrder(c.Value()) && forall n :: Balanced(c.Value(), n)
  {
    hide Step, InOrder, Balanced, LeftToLibrary;
    c := new Connection(outcomes);
    var i := 0;
    while i < |events|
      invariant 0 <= i <= |events| && c.Valid() && fresh(c) && fresh(c.vals)
      invariant c.Value() == Run(o, Started(outcomes), events[..i])
    {
      Apply(c, o, events[i]);
      i := i + 1;
      assert events[..i][..i - 1] == events[..i - 1];
    }
    assert events[..i] == events;
    RunInOrder(o, outcomes, events);
    forall n ensures Balanced(c.Value(), n) { RunBalanced(o, outcomes, events, n); }
  }

  method Apply(c: Connection, o: Options, e: Event)
    requires c.Valid()
    modifies c, c.vals
    ensures c.Valid() && (c.vals == old(c.vals) || fresh(c.vals)) && c.Value() == Step(o, old(c.Value()), e)
  {
    hide Invoke, Handle;
    match e
    case Request(name) => c.SendCall(name, true);
    case Received(m) => c.HandleInvoke(o, m);
  }
}
