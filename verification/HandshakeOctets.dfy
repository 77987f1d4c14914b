/** What an honest session puts on the wire, by octets and by what the cryptography is given. */
module HandshakeOctets {
  import opened Bytes
  import opened Handshake

  function Sum(a: int, b: int, c: int, d: int): int { a + b + c + d }

  /** Where the four kinds of places lie: a sum of four octets, wrapped, from a base. */
  lemma PlacesByNumber(s: Sig)
    ensures DigestOffset(0, s) == 12 + Sum(s[8], s[9], s[10], s[11]) % 728
    ensures DigestOffset(1, s) == 776 + Sum(s[772], s[773], s[774], s[775]) % 728
    ensures DhOffset(0, s) == 772 + Sum(s[1532], s[1533], s[1534], s[1535]) % 632
    ensures DhOffset(1, s) == 8 + Sum(s[768], s[769], s[770], s[771]) % 632
  {}

  const SERVER_TEXT := "Genuine Adobe Flash Media Server 001"
  const PLAYER_TEXT := "Genuine Adobe Flash Player 001"

  lemma TextsAre()
    ensures |ServerText()| == |SERVER_TEXT| && forall i | 0 <= i < 36 :: ServerText()[i] == SERVER_TEXT[i] as int
    ensures |PlayerText()| == |PLAYER_TEXT| && forall i | 0 <= i < 30 :: PlayerText()[i] == PLAYER_TEXT[i] as int
  {}

  /** What a client opens with: the type, the version; and which layout it signs under. */
  lemma OpensWith(encrypted: bool, swf: bool)
    ensures var m := ClientMode(encrypted, swf);
      && m.kind == (if encrypted then 6 else 3) && m.layout == (if encrypted then 1 else 0)
      && ClientVersion(m) == (if encrypted then [9, 0, 124, 2] else if swf then [10, 0, 45, 2] else [0, 0, 0, 0])
  {}

  /** A signed first message: 32 octets in it are the HMAC, under a text, of all the others. */
  predicate SignedFirst(c: Crypto, s: Sig, layout: Layout, text: seq<byte>) {
    var at := DigestOffset(layout, s);
    at + 32 <= 1536 && s[at..at + 32] == c.hmac(text, s[..at] + s[at + 32..])
  }

  /** A second message: its last 32 octets are the HMAC of the others, under one of the peer's digest. */
  predicate SignedSecond(c: Crypto, s: Sig, key: seq<byte>, peer: Sig, layout: Layout) {
    var at := DigestOffset(layout, peer);
    at + 32 <= 1536 && s[1504..] == c.hmac(c.hmac(key, peer[at..at + 32]), s[..1504])
  }

  lemma VerifiedIsSigned(c: Crypto, s: Sig, layout: Layout, text: seq<byte>)
    requires Verifies(c, s, layout, text)
    ensures SignedFirst(c, s, layout, text)
  {}

  lemma GenuineIsSigned(c: Crypto, kind: byte, key: seq<byte>, peer: Sig, layout: Layout, s: Sig)
    requires kind != 8 && Genuine(c, kind, key, DigestIn(peer, layout), s)
    ensures SignedSecond(c, s, key, peer, layout)
  {
    hide DigestOffset;
    PlaceFits(peer, layout);
  }

  lemma PlaceFits(s: Sig, layout: Layout)
    ensures DigestOffset(layout, s) + 32 <= 1536
  {}

  /** Type 8: each eight octets of the signature enciphered under the key that the digest's octet there names. */
  lemma SealedBlocks(c: Crypto, d: Digest, x: Digest, i: nat)
    requires i < 4
    ensures Sealed(c, 8, d, x, 4)[8 * i..8 * i + 8] == c.encipher(x[8 * i..8 * i + 8], d[8 * i] % 15)
  {
    BlocksSealed(c, d, x, 4, i);
  }

  lemma {:induction false} BlocksSealed(c: Crypto, d: Digest, x: Digest, n: nat, i: nat)
    requires i < n <= 4
    ensures Sealed(c, 8, d, x, n)[8 * i..8 * i + 8] == c.encipher(x[8 * i..8 * i + 8], d[8 * i] % 15)
    decreases n
  {
    var r := Sealed(c, 8, d, x, n - 1);
    var s := Sealed(c, 8, d, x, n);
    var block := c.encipher(r[8 * n - 8..8 * n], d[8 * n - 8] % 15);
    assert s == r[..8 * n - 8] + block + r[8 * n..];
    if i == n - 1 {
      assert r[8 * n - 8..][..8] == r[8 * n - 8..8 * n] && x[8 * n - 8..][..8] == x[8 * n - 8..8 * n];
      assert s[8 * i..8 * i + 8] == block;
    } else {
      BlocksSealed(c, d, x, n - 1, i);
      assert s[8 * i..8 * i + 8] == r[..8 * n - 8][8 * i..8 * i + 8] == r[8 * i..8 * i + 8];
    }
  }

  /** The ciphers of a party: what it sends is keyed by the peer's public key, what it receives by its own. */
  predicate KeyedBy(c: Crypto, link: Link, shared: PublicKey, own: PublicKey, peer: PublicKey) {
    && link.Ciphered?
    && link.outgoing == Cipher(c.hmac(shared, peer)[..16], 1536)
    && link.incoming == Cipher(c.hmac(shared, own)[..16], 1536)
  }

  lemma KeysAre(c: Crypto, secret: nat, theirs: PublicKey, ours: PublicKey)
    ensures var k := Keys(c, secret, theirs, ours);
      k.Some? ==> c.sharedSecret(secret, theirs).Some?
                  && KeyedBy(c, k.value, c.sharedSecret(secret, theirs).value, ours, theirs)
  {}

  /**
   * An honest session: who signs what under which key, and which key ciphers which direction. Type 8 enciphers the
   * second signatures as well.
   */
  lemma SessionSays(c: Crypto, m: Mode, start: seq<byte>, fill: seq<byte>, secret: nat, body: seq<byte>,
                    time: seq<byte>, serverFill: seq<byte>, serverSecret: nat)
    requires c.Commutes()
    requires |start| == 8 && |fill| == |serverFill| == SIG_SIZE - 8 && |body| == BODY_SIZE && |time| == 4
    requires Opens(m, start[4])
    ensures var first := Opening(c, m, start, fill, secret, PlayerText());
      var sm := ServerMode(m.kind, first);
      sm.Some? &&
      var answer := Opening(c, sm.value, time + ServerVersion(sm.value), serverFill, serverSecret, ServerText());
      var up := ClientReacts(c, Answered(m, sm.value.kind, answer), secret, first, sm.value.kind, answer, body);
      var down := ServerReacts(c, sm.value, serverSecret, answer, first);
      && first[..8] == start && answer[..8] == time + (if m.signed then [3, 5, 1, 1] else [0, 0, 0, 0])
      && up.Replied? && down.Replied?
      && (m.signed ==> SignedFirst(c, first, m.layout, PlayerText()) && SignedFirst(c, answer, m.layout, ServerText()))
      && (m.signed && sm.value.kind != 8 ==>
            && SignedSecond(c, up.reply, PlayerKey(), answer, m.layout)
            && SignedSecond(c, down.reply, ServerKey(), first, m.layout))
      && (m.encrypted ==>
            && c.sharedSecret(secret, c.publicKey(serverSecret)).Some?
            && var shared := c.sharedSecret(secret, c.publicKey(serverSecret)).value;
            && KeyedBy(c, up.link, shared, c.publicKey(secret), c.publicKey(serverSecret))
            && KeyedBy(c, down.link, shared, c.publicKey(serverSecret), c.publicKey(secret)))
      && (!m.signed ==> up.reply == answer && down.reply == first)
  {
    hide Verifies, Genuine, DigestIn, KeyIn, Signature, Opening, React, Keys, ServerText, PlayerText, KeyTail,
         SignedFirst, SignedSecond, KeyedBy, DhOffset, DigestOffset;
    HandshakeCompletes(c, m, start, fill, secret, body, time, serverFill, serverSecret);
    var first := Opening(c, m, start, fill, secret, PlayerText());
    OpeningRead(c, m, start, fill, secret, PlayerText());
    var sm := ServerMode(m.kind, first).value;
    var opening := time + ServerVersion(sm);
    var answer := Opening(c, sm, opening, serverFill, serverSecret, ServerText());
    OpeningRead(c, sm, opening, serverFill, serverSecret, ServerText());
    assert opening[4] == if sm.signed then 3 else 0;
    assert Answered(m, sm.kind, answer) == sm;
    PartySays(c, sm, secret, serverSecret, first, answer, ServerText(), PlayerKey(), body);
    PartySays(c, sm, serverSecret, secret, answer, first, PlayerText(), ServerKey(), first[..BODY_SIZE]);
    if m.encrypted { assert c.Agree(secret, serverSecret); }
  }

  /** One party's side: the other's first message, its own second one, and its ciphers. */
  lemma PartySays(c: Crypto, m: Mode, secret: nat, theirs: nat, own: Sig, peer: Sig, text: seq<byte>, key: seq<byte>,
                  body: seq<byte>)
    requires |body| == BODY_SIZE && (m.signed ==> Verifies(c, peer, m.layout, text))
    requires m.encrypted ==> m.signed && KeyIn(own, m.layout) == c.publicKey(secret)
                             && KeyIn(peer, m.layout) == c.publicKey(theirs) && c.Agree(secret, theirs)
    ensures var r := React(c, m, secret, own, peer, text, key, body);
      && r.Replied?
      && (m.signed ==> SignedFirst(c, peer, m.layout, text))
      && (m.signed && m.kind != 8 ==> SignedSecond(c, r.reply, key, peer, m.layout))
      && (m.encrypted ==> KeyedBy(c, r.link, c.sharedSecret(secret, c.publicKey(theirs)).value, c.publicKey(secret),
                                  c.publicKey(theirs)))
      && (!m.signed ==> r.reply == peer)
  {
    hide Verifies, Genuine, DigestIn, KeyIn, Signature, Keys, SignedFirst, SignedSecond, KeyedBy, DhOffset,
         DigestOffset;
    ReplyAccepted(c, m, secret, own, peer, text, key, body);
    var r := React(c, m, secret, own, peer, text, key, body);
    if m.signed {
      VerifiedIsSigned(c, peer, m.layout, text);
      if m.kind != 8 { GenuineIsSigned(c, m.kind, key, peer, m.layout, r.reply); }
    }
    if m.encrypted { KeysAre(c, secret, c.publicKey(theirs), c.publicKey(secret)); }
  }
}
