/** The handshake as both sides carry it out, in buffers they fill and overwrite. */
module Handshaker {
  import opened Bytes
  import opened Memory
  import opened Handshake

  method SumOfFour(s: array<byte>, at: nat) returns (sum: nat)
    requires s.Length == SIG_SIZE && at + 4 <= SIG_SIZE
    ensures sum == SumAt(s[..], at)
  {
    var i := at;
    sum := s[i];
    i := i + 1;
    sum := sum + s[i];
    i := i + 1;
    sum := sum + s[i];
    i := i + 1;
    sum := sum + s[i];
  }

  /** No call ends in the guard that gives up the process. */
  method GetDigestOffset(layout: Layout, s: array<byte>) returns (res: nat)
    requires s.Length == SIG_SIZE
    ensures res == DigestOffset(layout, s[..]) && res + DIGEST_SIZE <= SIG_SIZE
  {
    if layout == 0 {
      var offset := SumOfFour(s, 8);
      res := offset % 728 + 12;
      assert !(res + 32 > 771);
    } else {
      var offset := SumOfFour(s, 772);
      res := offset % 728 + 776;
      assert !(res + 32 > 1535);
    }
  }

  method GetDhOffset(layout: Layout, s: array<byte>) returns (res: nat)
    requires s.Length == SIG_SIZE
    ensures res == DhOffset(layout, s[..]) && res + KEY_SIZE <= SIG_SIZE
  {
    if layout == 0 {
      var offset := SumOfFour(s, 1532);
      res := offset % 632 + 772;
      assert !(res + 128 > 1531);
    } else {
      var offset := SumOfFour(s, 768);
      res := offset % 632 + 8;
      assert !(res + 128 > 767);
    }
  }

  /** The message is copied out around the digest before the digest is computed. */
  method CalculateDigest(c: Crypto, pos: nat, s: array<byte>, key: seq<byte>) returns (digest: Digest)
    requires s.Length == SIG_SIZE && pos + DIGEST_SIZE <= SIG_SIZE
    ensures digest == c.hmac(key, Around(s[..], pos))
  {
    var message := new byte[BODY_SIZE];
    CopyBytes(message, 0, s[..pos]);
    label Head:
    CopyBytes(message, pos, s[pos + DIGEST_SIZE..]);
    assert forall i | 0 <= i < pos :: message[i] == old@Head(message[i]);
    assert message[..] == message[0..pos] + message[pos..pos + |s[pos + DIGEST_SIZE..]|];
    assert message[..] == Around(s[..], pos);
    digest := c.hmac(key, message[..]);
  }

  method VerifyDigest(c: Crypto, pos: nat, s: array<byte>, key: seq<byte>) returns (ok: bool)
    requires s.Length == SIG_SIZE && pos + DIGEST_SIZE <= SIG_SIZE
    ensures ok == (s[pos..pos + DIGEST_SIZE] == c.hmac(key, Around(s[..], pos)))
  {
    var digest := CalculateDigest(c, pos, s, key);
    ok := s[pos..pos + DIGEST_SIZE] == digest;
  }

  method InitRC4Encryption(c: Crypto, secret: seq<byte>, theirs: PublicKey, ours: PublicKey)
      returns (incoming: seq<byte>, outgoing: seq<byte>)
    ensures incoming == c.hmac(secret, ours)[..RC4_KEY_SIZE] && outgoing == c.hmac(secret, theirs)[..RC4_KEY_SIZE]
  {
    var digest := c.hmac(secret, theirs);
    outgoing := digest[..16];
    digest := c.hmac(secret, ours);
    incoming := digest[..16];
  }

  /** The blocks of a signature, enciphered where they stand. */
  method Seal(c: Crypto, kind: byte, d: Digest, sig: array<byte>, at: nat)
    requires at + DIGEST_SIZE <= sig.Length
    modifies sig
    ensures sig[at..at + DIGEST_SIZE] == Sealed(c, kind, d, old(sig[at..at + DIGEST_SIZE]), 4)
    ensures OnlyWithin(sig, at, at + DIGEST_SIZE)
  {
    hide Sealed;
    if kind != 8 {
      NotSealed(c, kind, d, sig[at..at + DIGEST_SIZE]);
      return;
    }
    ghost var x := sig[at..at + DIGEST_SIZE];
    var i := 0;
    ghost var n := 0;
    SealStarts(c, d, x);
    while i < DIGEST_SIZE
      invariant 0 <= n <= 4 && i == 8 * n
      invariant sig[at..at + DIGEST_SIZE] == Sealed(c, 8, d, x, n)
      invariant OnlyWithin(sig, at, at + DIGEST_SIZE)
    {
      SealBlock(c, d, sig, at, i, n, x);
      i := i + 8;
      n := n + 1;
    }
  }

  lemma NotSealed(c: Crypto, kind: byte, d: Digest, x: Digest)
    requires kind != 8
    ensures Sealed(c, kind, d, x, 4) == x
  {}

  lemma SealStarts(c: Crypto, d: Digest, x: Digest)
    ensures Sealed(c, 8, d, x, 0) == x
  {}

  lemma SealContinues(c: Crypto, d: Digest, x: Digest, n: nat, i: nat, r: Digest)
    requires n < 4 && i == 8 * n && r == Sealed(c, 8, d, x, n)
    ensures r[..i] + c.encipher(r[i..i + 8], d[i] % 15) + r[i + 8..] == Sealed(c, 8, d, x, n + 1)
  {}

  lemma InThree(s: seq<byte>, i: nat, j: nat)
    requires i <= j <= |s|
    ensures s == s[..i] + s[i..j] + s[j..]
  {}

  method SealBlock(c: Crypto, d: Digest, sig: array<byte>, at: nat, i: nat, ghost n: nat, ghost x: Digest)
    requires at + DIGEST_SIZE <= sig.Length && n < 4 && i == 8 * n
    requires sig[at..at + DIGEST_SIZE] == Sealed(c, 8, d, x, n)
    modifies sig
    ensures sig[at..at + DIGEST_SIZE] == Sealed(c, 8, d, x, n + 1)
    ensures OnlyWithin(sig, at, at + DIGEST_SIZE)
  {
    hide Sealed;
    ghost var was, r := sig[..], sig[at..at + DIGEST_SIZE];
    SliceOfSlice(was, at, DIGEST_SIZE, i, i + 8);
    var block := c.encipher(sig[at + i..at + i + 8], d[i] % 15);
    CopyBytes(sig, at + i, block);
    ghost var now := sig[at..at + DIGEST_SIZE];
    SliceOfSlice(sig[..], at, DIGEST_SIZE, i, i + 8);
    assert now[..i] == r[..i] && now[i + 8..] == r[i + 8..];
    InThree(now, i, i + 8);
    SealContinues(c, d, x, n, i, r);
  }

  /** Signs what stands before the last 32 octets, and writes the signature there. */
  method Sign(c: Crypto, kind: byte, key: seq<byte>, digest: Digest, out: array<byte>)
    requires out.Length == SIG_SIZE
    modifies out
    ensures out[..] == Signed(c, kind, key, digest, old(out[..BODY_SIZE]))
  {
    ghost var body := out[..BODY_SIZE];
    var d := c.hmac(key, digest);
    var x := c.hmac(d, out[..BODY_SIZE]);
    CopyBytes(out, BODY_SIZE, x);
    assert out[..BODY_SIZE] == body;
    Seal(c, kind, d, out, BODY_SIZE);
    assert out[..BODY_SIZE] == body;
    assert out[..] == out[..BODY_SIZE] + out[BODY_SIZE..BODY_SIZE + DIGEST_SIZE];
  }

  method Overwrite(out: array<byte>, at: nat, piece: seq<byte>)
    requires out.Length == SIG_SIZE && at + |piece| <= SIG_SIZE
    modifies out
    ensures out[..] == Written(old(out[..]), at, piece)
  {
    ghost var s := out[..];
    CopyBytes(out, at, piece);
    assert out[..at] == s[..at] && out[at + |piece|..] == s[at + |piece|..];
    assert out[..] == out[..at] + out[at..at + |piece|] + out[at + |piece|..];
  }

  /** One side of the session: its first message, what it is sent, and what it has worked out so far. */
  class Endpoint {
    const own: array<byte>
    const peer: array<byte>
    const spare: array<byte>
    var mode: Mode
    var secret: nat
    var digestPos: nat
    var dhPos: nat
    var ready: Link
    var link: Link

    ghost predicate Valid()
      reads this, own, peer, spare
    {
      && own.Length == peer.Length == spare.Length == SIG_SIZE
      && own != peer && own != spare && peer != spare
    }

    /** The places of the own digest and public key are as remembered. */
    ghost predicate Opened()
      reads this, own, peer, spare
      requires Valid()
    {
      && (mode.signed ==> digestPos == DigestOffset(mode.layout, own[..]))
      && (mode.signed && mode.encrypted ==> dhPos == DhOffset(mode.layout, own[..]))
    }

    constructor ()
      ensures Valid() && fresh(own) && fresh(peer) && fresh(spare) && link == Plain
    {
      own := new byte[SIG_SIZE];
      peer := new byte[SIG_SIZE];
      spare := new byte[SIG_SIZE];
      mode := Mode(3, 0, false, false);
      secret, digestPos, dhPos := 0, 0, 0;
      ready, link := Plain, Plain;
    }

    method Open(c: Crypto, time: seq<byte>, version: seq<byte>, fill: seq<byte>, s: nat, text: seq<byte>)
      requires Valid() && |time| == 4 && |version| == 4 && |fill| == SIG_SIZE - 8
      modifies own, this`secret, this`digestPos, this`dhPos
      ensures Valid() && Opened() && secret == s
      ensures own[..] == Opening(c, mode, time + version, fill, s, text)
    {
      hide DigestOffset, DhOffset, WithKey, WithDigest, ExpectedDigest, Verifies, KeyIn;
      secret := s;
      WriteStart(time, version, fill);
      if mode.signed {
        if mode.encrypted {
          WriteKey(c.publicKey(s));
        }
        WriteDigest(c, text);
      }
    }

    method WriteStart(time: seq<byte>, version: seq<byte>, fill: seq<byte>)
      requires Valid() && |time| == 4 && |version| == 4 && |fill| == SIG_SIZE - 8
      modifies own
      ensures own[..] == time + version + fill
    {
      CopyBytes(own, 0, time);
      assert own[..4] == time;
      CopyBytes(own, 4, version);
      assert own[..4] == time && own[4..8] == version;
      CopyBytes(own, 8, fill);
      assert own[..4] == time && own[4..8] == version && own[8..SIG_SIZE] == fill;
      assert own[..] == own[..4] + own[4..8] + own[8..SIG_SIZE];
    }

    method WriteKey(k: PublicKey)
      requires Valid()
      modifies own, this`dhPos
      ensures own[..] == WithKey(old(own[..]), mode.layout, k)
      ensures dhPos == DhOffset(mode.layout, own[..])
    {
      ghost var s: Sig := own[..];
      dhPos := GetDhOffset(mode.layout, own);
      Overwrite(own, dhPos, k);
      KeyFound(s, mode.layout, k);
    }

    method WriteDigest(c: Crypto, text: seq<byte>)
      requires Valid()
      modifies own, this`digestPos
      ensures own[..] == WithDigest(c, old(own[..]), mode.layout, text)
      ensures digestPos == DigestOffset(mode.layout, own[..])
      ensures DhOffset(mode.layout, own[..]) == DhOffset(mode.layout, old(own[..]))
    {
      ghost var s: Sig := own[..];
      digestPos := GetDigestOffset(mode.layout, own);
      var digest := CalculateDigest(c, digestPos, own, text);
      Overwrite(own, digestPos, digest);
      DigestFound(c, s, mode.layout, text);
    }

    /** Looks for the peer's digest, in the expected layout and then in the other. */
    method FindDigest(c: Crypto, text: seq<byte>) returns (layout: Option<Layout>, pos: nat)
      requires Valid()
      ensures layout == Recognized(c, peer[..], mode.layout, text)
      ensures layout.Some? ==> pos == DigestOffset(layout.value, peer[..]) && pos + DIGEST_SIZE <= SIG_SIZE
    {
      hide DigestOffset;
      pos := GetDigestOffset(mode.layout, peer);
      var ok := VerifyDigest(c, pos, peer, text);
      if ok { return Some(mode.layout), pos; }
      pos := GetDigestOffset(Other(mode.layout), peer);
      ok := VerifyDigest(c, pos, peer, text);
      if ok { return Some(Other(mode.layout)), pos; }
      layout := None;
    }

    /** Computes the shared secret from the peer's key, and the keys of both directions from that. */
    method ExchangeKeys(c: Crypto, layout: Layout) returns (ok: bool)
      requires Valid() && Opened() && mode.signed && mode.encrypted
      modifies this`ready
      ensures var k := Keys(c, secret, KeyIn(peer[..], layout), KeyIn(own[..], mode.layout));
        ok == k.Some? && (ok ==> Some(ready) == k)
    {
      hide DhOffset;
      ghost var theirs, ours := KeyIn(peer[..], layout), KeyIn(own[..], mode.layout);
      var pos := GetDhOffset(layout, peer);
      assert peer[pos..pos + KEY_SIZE] == theirs;
      PlacesAreApart(mode.layout, own[..]);
      assert own[dhPos..dhPos + KEY_SIZE] == ours by { assert own[..][dhPos..dhPos + KEY_SIZE] == ours; }
      var k := c.sharedSecret(secret, peer[pos..pos + KEY_SIZE]);
      if k.None? { return false; }
      var incoming, outgoing := InitRC4Encryption(c, k.value, peer[pos..pos + KEY_SIZE], own[dhPos..dhPos + KEY_SIZE]);
      ready := Ciphered(Cipher(incoming, SIG_SIZE), Cipher(outgoing, SIG_SIZE));
      ok := true;
    }

    /** What the peer's first message comes to, whatever is to be signed with `key` in answer to it. */
    method Examine(c: Crypto, text: seq<byte>, ghost key: seq<byte>, ghost body: seq<byte>)
        returns (ok: bool, digest: Digest)
      requires Valid() && Opened() && mode.signed && ready == Plain && |body| == BODY_SIZE
      modifies this`ready
      ensures React(c, mode, secret, own[..], peer[..], text, key, body)
        == if ok then Replied(Signed(c, mode.kind, key, digest, body), ready) else Refused
    {
      hide DigestOffset, DhOffset, Recognized, Keys, Signed;
      var layout, pos := FindDigest(c, text);
      ok, digest := layout.Some?, c.hmac([], []);
      if !ok { return; }
      digest := peer[pos..pos + DIGEST_SIZE];
      assert digest == DigestIn(peer[..], layout.value);
      if mode.encrypted { ok := ExchangeKeys(c, layout.value); }
    }

    /** The client's half of the exchange up to its second message; unsigned, it sends back what it was sent. */
    method ClientReact(c: Crypto, kind: byte, first: Sig, fill: Sig) returns (ok: bool, reply: array<byte>)
      requires Valid() && Opened() && ready == Plain
      modifies peer, spare, this`mode, this`ready
      ensures Valid() && Opened() && mode == Answered(old(mode), kind, first)
      ensures var r := ClientReacts(c, old(mode), secret, own[..], kind, first, fill[..BODY_SIZE]);
        ok == r.Replied? && (ok ==> reply in {peer, spare} && reply[..] == r.reply && ready == r.link)
    {
      hide DigestOffset, DhOffset, Signed, Recognized, Keys, ServerText, PlayerText, KeyTail;
      CopyBytes(peer, 0, first);
      assert peer[..] == first;
      var signed := mode.signed && !(kind == 3 && peer[4] == 0);
      mode := Mode(kind, mode.layout, signed, mode.encrypted);
      ok, reply := true, peer;
      if mode.signed {
        var digest;
        ok, digest := Examine(c, ServerText(), PlayerKey(), fill[..BODY_SIZE]);
        if ok {
          reply := spare;
          CopyBytes(reply, 0, fill);
          assert reply[..] == fill;
          assert reply[..BODY_SIZE] == fill[..BODY_SIZE];
          Sign(c, mode.kind, PlayerKey(), digest, reply);
        }
      }
    }

    /** The server's half: the signature goes over the end of the client's own message. */
    method ServerReact(c: Crypto) returns (ok: bool)
      requires Valid() && Opened() && ready == Plain
      modifies peer, this`ready
      ensures Valid() && Opened()
      ensures var r := ServerReacts(c, mode, secret, own[..], old(peer[..]));
        ok == r.Replied? && (ok ==> peer[..] == r.reply && ready == r.link)
    {
      hide DigestOffset, DhOffset, Signed, Recognized, Keys, ServerText, PlayerText, KeyTail;
      ok := true;
      if mode.signed {
        var digest;
        assert peer[..BODY_SIZE] == peer[..][..BODY_SIZE];
        ok, digest := Examine(c, PlayerText(), ServerKey(), peer[..BODY_SIZE]);
        if ok { Sign(c, mode.kind, ServerKey(), digest, peer); }
      }
    }

    /** Checks the peer's second message; the keys are in force only once it is accepted. */
    method Finish(c: Crypto, key: seq<byte>, last: Sig) returns (ok: bool)
      requires Valid() && Opened()
      modifies peer, this`link
      ensures ok == Accepts(c, mode, own[..], key, last)
      ensures link == if ok && mode.signed && mode.encrypted then ready else old(link)
    {
      hide DigestOffset, Sealed;
      CopyBytes(peer, 0, last);
      assert peer[..] == last;
      if mode.signed {
        PlacesAreApart(mode.layout, own[..]);
        assert own[digestPos..digestPos + DIGEST_SIZE] == own[..][digestPos..digestPos + DIGEST_SIZE];
        var d := c.hmac(key, own[digestPos..digestPos + DIGEST_SIZE]);
        assert peer[..BODY_SIZE] == last[..BODY_SIZE] && peer[BODY_SIZE..] == last[BODY_SIZE..];
        var x := c.hmac(d, peer[..BODY_SIZE]);
        var signature := new byte[DIGEST_SIZE];
        CopyBytes(signature, 0, x);
        assert signature[0..0 + DIGEST_SIZE] == x;
        Seal(c, mode.kind, d, signature, 0);
        assert signature[..] == signature[0..0 + DIGEST_SIZE];
        if signature[..] != peer[BODY_SIZE..] { return false; }
        if mode.encrypted { link := ready; }
      }
      ok := true;
    }

    method ClientStart(c: Crypto, encrypted: bool, swf: bool, time: seq<byte>, fill: seq<byte>, s: nat)
      requires Valid() && |time| == 4 && |fill| == SIG_SIZE - 8
      modifies this, own
      ensures Valid() && Opened() && secret == s && ready == link == Plain
      ensures mode == ClientMode(encrypted, swf)
      ensures own[..] == Opening(c, mode, time + ClientVersion(mode), fill, s, PlayerText())
    {
      hide Opening, DigestOffset, DhOffset, PlayerText;
      mode := Mode(if encrypted then 6 else 3, if encrypted then 1 else 0, encrypted || swf, encrypted);
      ready, link := Plain, Plain;
      Open(c, time, ClientVersion(mode), fill, s, PlayerText());
    }

    /** Takes the client's first message and prepares the own one, unless the type is unknown. */
    method ServerStart(c: Crypto, kind: byte, first: Sig, time: seq<byte>, fill: seq<byte>, s: nat) returns (ok: bool)
      requires Valid() && |time| == 4 && |fill| == SIG_SIZE - 8
      modifies this, own, peer
      ensures Valid() && ok == ServerMode(kind, first).Some?
      ensures ok ==> Opened() && secret == s && ready == link == Plain && peer[..] == first
      ensures ok ==> Some(mode) == ServerMode(kind, first)
      ensures ok ==> own[..] == Opening(c, mode, time + ServerVersion(mode), fill, s, ServerText())
    {
      hide Opening, DigestOffset, DhOffset, ServerText;
      CopyBytes(peer, 0, first);
      assert peer[..] == first;
      if kind == 3 {
        mode := Mode(3, 0, false, false);
      } else if kind == 6 || kind == 8 {
        mode := Mode(if peer[4] == 128 then 8 else kind, 1, true, true);
      } else {
        return false;
      }
      if !mode.signed && peer[4] != 0 { mode := mode.(signed := true); }
      ready, link := Plain, Plain;
      Open(c, time, ServerVersion(mode), fill, s, ServerText());
      ok := true;
    }
  }

  /** A whole session over a channel that delivers what is sent. */
  method Session(c: Crypto, encrypted: bool, swf: bool, time: seq<byte>, fill: seq<byte>, secret: nat, replyFill: Sig,
                 serverTime: seq<byte>, serverFill: seq<byte>, serverSecret: nat)
      returns (client: Endpoint, server: Endpoint, clientOk: bool, serverOk: bool)
    requires c.Commutes() && |time| == |serverTime| == 4 && |fill| == |serverFill| == SIG_SIZE - 8
    ensures clientOk && serverOk
    ensures if encrypted then Cross(client.link, server.link) else client.link == server.link == Plain
  {
    hide Opening, React, Accepts, Cross, Keys, DigestOffset, DhOffset, ServerText, PlayerText, KeyTail;
    client := new Endpoint();
    server := new Endpoint();
    client.ClientStart(c, encrypted, swf, time, fill, secret);
    ghost var start := time + ClientVersion(client.mode);
    ClientOpens(encrypted, swf);
    HandshakeCompletes(c, client.mode, start, fill, secret, replyFill[..BODY_SIZE], serverTime, serverFill,
                       serverSecret);
    serverOk := server.ServerStart(c, client.mode.kind, client.own[..], serverTime, serverFill, serverSecret);
    var answered;
    answered := server.ServerReact(c);
    var reply;
    clientOk, reply := client.ClientReact(c, server.mode.kind, server.own[..], replyFill);
    var sent := reply[..];
    clientOk := client.Finish(c, ServerKey(), server.peer[..]);
    serverOk := server.Finish(c, PlayerKey(), sent);
  }
}
