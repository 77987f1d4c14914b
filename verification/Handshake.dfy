/** The two-party handshake: what each side sends, and what it makes of what it is sent. */
module Handshake {
  import opened Bytes

  const SIG_SIZE := 1536
  const DIGEST_SIZE := 32
  const KEY_SIZE := 128
  const BODY_SIZE := 1504
  const RC4_KEY_SIZE := 16

  type Sig = s: seq<byte> | |s| == SIG_SIZE witness seq(SIG_SIZE, _ => 0)
  type Digest = s: seq<byte> | |s| == DIGEST_SIZE witness seq(DIGEST_SIZE, _ => 0)
  type PublicKey = s: seq<byte> | |s| == KEY_SIZE witness seq(KEY_SIZE, _ => 0)
  type Block = s: seq<byte> | |s| == 8 witness seq(8, _ => 0)

  /** Which of the two layouts of a signature is meant. */
  type Layout = a: nat | a < 2

  function Other(layout: Layout): Layout { 1 - layout }

  /**
   * The cryptography, as functions: HMAC-SHA256 of a key and a message, the Diffie-Hellman public key of a private
   * one, the secret shared with the owner of a public key, and the block cipher of type 8 with a numbered key.
   */
  datatype Crypto = Crypto(
    hmac: (seq<byte>, seq<byte>) -> Digest,
    publicKey: nat -> PublicKey,
    sharedSecret: (nat, PublicKey) -> Option<PublicKey>,
    encipher: (Block, nat) -> Block)
  {
    predicate Agree(a: nat, b: nat) {
      sharedSecret(a, publicKey(b)).Some? && sharedSecret(a, publicKey(b)) == sharedSecret(b, publicKey(a))
    }

    /** The one law the key exchange rests on. */
    ghost predicate Commutes() {
      forall a: nat, b: nat :: Agree(a, b)
    }
  }

  /** "Genuine Adobe Flash Media Server 001", the part of its key a server signs its first message with. */
  function ServerText(): (k: seq<byte>)
    ensures |k| == 36
  {
    [0x47, 0x65, 0x6e, 0x75, 0x69, 0x6e, 0x65, 0x20, 0x41, 0x64, 0x6f, 0x62, 0x65, 0x20, 0x46, 0x6c,
     0x61, 0x73, 0x68, 0x20, 0x4d, 0x65, 0x64, 0x69, 0x61, 0x20, 0x53, 0x65, 0x72, 0x76, 0x65, 0x72,
     0x20, 0x30, 0x30, 0x31]
  }

  /** "Genuine Adobe Flash Player 001". */
  function PlayerText(): (k: seq<byte>)
    ensures |k| == 30
  {
    [0x47, 0x65, 0x6e, 0x75, 0x69, 0x6e, 0x65, 0x20, 0x41, 0x64, 0x6f, 0x62, 0x65, 0x20, 0x46, 0x6c,
     0x61, 0x73, 0x68, 0x20, 0x50, 0x6c, 0x61, 0x79, 0x65, 0x72, 0x20, 0x30, 0x30, 0x31]
  }

  /** What both keys end with. */
  function KeyTail(): (k: seq<byte>)
    ensures |k| == 32
  {
    [0xf0, 0xee, 0xc2, 0x4a, 0x80, 0x68, 0xbe, 0xe8, 0x2e, 0x00, 0xd0, 0xd1, 0x02, 0x9e, 0x7e, 0x57,
     0x6e, 0xec, 0x5d, 0x2d, 0x29, 0x80, 0x6f, 0xab, 0x93, 0xb8, 0xe6, 0x36, 0xcf, 0xeb, 0x31, 0xae]
  }

  function ServerKey(): seq<byte> { ServerText() + KeyTail() }

  function PlayerKey(): seq<byte> { PlayerText() + KeyTail() }

  //
  // Where a signature holds its digest and its public key
  //

  function SumAt(s: Sig, at: nat): (n: nat)
    requires at + 4 <= SIG_SIZE
  {
    var a: int, b: int, c: int, d: int := s[at], s[at + 1], s[at + 2], s[at + 3];
    a + b + c + d
  }

  function DigestMark(layout: Layout): nat { if layout == 0 then 8 else 772 }

  function DhMark(layout: Layout): nat { if layout == 0 then 1532 else 768 }

  function DigestOffset(layout: Layout, s: Sig): nat {
    SumAt(s, DigestMark(layout)) % 728 + DigestMark(layout) + 4
  }

  function DhOffset(layout: Layout, s: Sig): nat {
    SumAt(s, DhMark(layout)) % 632 + if layout == 0 then 772 else 8
  }

  predicate Apart(a: int, n: int, b: int, m: int) { a + n <= b || b + m <= a }

  /**
   * The digest, the public key, the four octets that place each, and the time and version all keep clear of one
   * another, and the exit guards of the four offset functions never fire.
   */
  lemma PlacesAreApart(layout: Layout, s: Sig)
    ensures var dig, dh := DigestOffset(layout, s), DhOffset(layout, s);
      && Apart(dig, DIGEST_SIZE, dh, KEY_SIZE)
      && Apart(dig, DIGEST_SIZE, DigestMark(layout), 4) && Apart(dig, DIGEST_SIZE, DhMark(layout), 4)
      && Apart(dh, KEY_SIZE, DigestMark(layout), 4) && Apart(dh, KEY_SIZE, DhMark(layout), 4)
      && dig >= 8 && dh >= 8
      && dig + DIGEST_SIZE <= (if layout == 0 then 771 else 1535)
      && dh + KEY_SIZE <= (if layout == 0 then 1531 else 767)
  {}

  function Written(s: Sig, at: nat, piece: seq<byte>): (r: Sig)
    requires at + |piece| <= SIG_SIZE
  {
    s[..at] + piece + s[at + |piece|..]
  }

  lemma WrittenElsewhere(s: Sig, at: nat, piece: seq<byte>, from: nat, n: nat)
    requires at + |piece| <= SIG_SIZE && from + n <= SIG_SIZE && Apart(at, |piece|, from, n)
    ensures forall i | from <= i < from + n :: Written(s, at, piece)[i] == s[i]
    ensures Written(s, at, piece)[from..from + n] == s[from..from + n]
  {
    var r := Written(s, at, piece);
    forall i | from <= i < from + n ensures r[i] == s[i] {
      if i < at {
      } else {
        assert r[i] == s[at + |piece|..][i - (at + |piece|)];
      }
    }
  }

  lemma SumElsewhere(s: Sig, at: nat, piece: seq<byte>, from: nat)
    requires at + |piece| <= SIG_SIZE && from + 4 <= SIG_SIZE && Apart(at, |piece|, from, 4)
    ensures SumAt(Written(s, at, piece), from) == SumAt(s, from)
  {
    hide Written;
    WrittenElsewhere(s, at, piece, from, 4);
  }

  //
  // Signing and verifying
  //

  function Around(s: Sig, at: nat): seq<byte>
    requires at + DIGEST_SIZE <= SIG_SIZE
  {
    s[..at] + s[at + DIGEST_SIZE..]
  }

  function DigestIn(s: Sig, layout: Layout): Digest {
    s[DigestOffset(layout, s)..DigestOffset(layout, s) + DIGEST_SIZE]
  }

  function KeyIn(s: Sig, layout: Layout): PublicKey {
    PlacesAreApart(layout, s);
    s[DhOffset(layout, s)..DhOffset(layout, s) + KEY_SIZE]
  }

  function ExpectedDigest(c: Crypto, s: Sig, layout: Layout, key: seq<byte>): Digest {
    c.hmac(key, Around(s, DigestOffset(layout, s)))
  }

  predicate Verifies(c: Crypto, s: Sig, layout: Layout, key: seq<byte>) {
    DigestIn(s, layout) == ExpectedDigest(c, s, layout, key)
  }

  function WithKey(s: Sig, layout: Layout, k: PublicKey): Sig {
    PlacesAreApart(layout, s);
    Written(s, DhOffset(layout, s), k)
  }

  function WithDigest(c: Crypto, s: Sig, layout: Layout, key: seq<byte>): Sig {
    Written(s, DigestOffset(layout, s), ExpectedDigest(c, s, layout, key))
  }

  /** Writing the key moves nothing else, and the key is found again. */
  lemma KeyFound(s: Sig, layout: Layout, k: PublicKey)
    ensures var r := WithKey(s, layout, k);
      && KeyIn(r, layout) == k && DhOffset(layout, r) == DhOffset(layout, s)
      && DigestOffset(layout, r) == DigestOffset(layout, s) && r[..8] == s[..8]
  {
    PlacesAreApart(layout, s);
    SumElsewhere(s, DhOffset(layout, s), k, DhMark(layout));
    SumElsewhere(s, DhOffset(layout, s), k, DigestMark(layout));
    WrittenElsewhere(s, DhOffset(layout, s), k, 0, 8);
  }

  /** Nor does writing the digest, which therefore verifies where it is looked for. */
  lemma DigestFound(c: Crypto, s: Sig, layout: Layout, key: seq<byte>)
    ensures var r := WithDigest(c, s, layout, key);
      && Verifies(c, r, layout, key) && KeyIn(r, layout) == KeyIn(s, layout)
      && DhOffset(layout, r) == DhOffset(layout, s) && DigestOffset(layout, r) == DigestOffset(layout, s)
      && r[..8] == s[..8]
  {
    PlacesAreApart(layout, s);
    var at, d := DigestOffset(layout, s), ExpectedDigest(c, s, layout, key);
    SumElsewhere(s, at, d, DhMark(layout));
    SumElsewhere(s, at, d, DigestMark(layout));
    WrittenElsewhere(s, at, d, 0, 8);
    WrittenElsewhere(s, at, d, DhOffset(layout, s), KEY_SIZE);
    var r := WithDigest(c, s, layout, key);
    assert Around(r, at) == Around(s, at);
  }

  //
  // The messages
  //

  /** The octet sent first, the layout tried first, and whether the messages are signed and the keys exchanged. */
  datatype Mode = Mode(kind: byte, layout: Layout, signed: bool, encrypted: bool)

  function ClientMode(encrypted: bool, swf: bool): Mode {
    Mode(if encrypted then 6 else 3, if encrypted then 1 else 0, encrypted || swf, encrypted)
  }

  function ClientVersion(m: Mode): (v: seq<byte>)
    ensures |v| == 4
  {
    if !m.signed then [0, 0, 0, 0] else if m.encrypted then [9, 0, 0x7c, 2] else [10, 0, 45, 2]
  }

  /** How a server takes a client's first message; it knows types 3, 6 and 8. */
  function ServerMode(kind: byte, peer: Sig): Option<Mode> {
    if kind == 3 then Some(Mode(3, 0, peer[4] != 0, false))
    else if kind == 6 || kind == 8 then Some(Mode(if peer[4] == 128 then 8 else kind, 1, true, true))
    else None
  }

  function ServerVersion(m: Mode): (v: seq<byte>)
    ensures |v| == 4
  {
    if m.signed then [3, 5, 1, 1] else [0, 0, 0, 0]
  }

  function Opening(c: Crypto, m: Mode, start: seq<byte>, fill: seq<byte>, secret: nat, text: seq<byte>): Sig
    requires |start| == 8 && |fill| == SIG_SIZE - 8
  {
    var s: Sig := start + fill;
    if !m.signed then s
    else WithDigest(c, if m.encrypted then WithKey(s, m.layout, c.publicKey(secret)) else s, m.layout, text)
  }

  lemma OpeningRead(c: Crypto, m: Mode, start: seq<byte>, fill: seq<byte>, secret: nat, text: seq<byte>)
    requires |start| == 8 && |fill| == SIG_SIZE - 8
    ensures var s := Opening(c, m, start, fill, secret, text);
      && s[..8] == start && s[4] == start[4]
      && (m.signed ==> Verifies(c, s, m.layout, text))
      && (m.signed && m.encrypted ==> KeyIn(s, m.layout) == c.publicKey(secret))
  {
    hide Verifies, KeyIn, WithKey, WithDigest, DhOffset, DigestOffset;
    var s: Sig := start + fill;
    assert s[..8] == start;
    if m.signed {
      var t := if m.encrypted then WithKey(s, m.layout, c.publicKey(secret)) else s;
      if m.encrypted { KeyFound(s, m.layout, c.publicKey(secret)); }
      DigestFound(c, t, m.layout, text);
    }
    var r := Opening(c, m, start, fill, secret, text);
    assert r[..8] == start;
    assert r[..8][4] == r[4];
  }

  /** Type 8 enciphers a signature in four blocks, each under a key its own digest names. */
  function Sealed(c: Crypto, kind: byte, d: Digest, x: Digest, n: nat): (r: Digest)
    requires n <= 4
    ensures r[8 * n..] == x[8 * n..]
  {
    if kind != 8 || n == 0 then x
    else
      var r := Sealed(c, kind, d, x, n - 1);
      r[..8 * n - 8] + c.encipher(r[8 * n - 8..8 * n], d[8 * n - 8] % 15) + r[8 * n..]
  }

  /** What answers a digest: a signature of `body` under a key made of the digest. */
  function Signature(c: Crypto, kind: byte, key: seq<byte>, digest: Digest, body: seq<byte>): Digest {
    var d := c.hmac(key, digest);
    Sealed(c, kind, d, c.hmac(d, body), 4)
  }

  function Signed(c: Crypto, kind: byte, key: seq<byte>, digest: Digest, body: seq<byte>): Sig
    requires |body| == BODY_SIZE
  {
    body + Signature(c, kind, key, digest, body)
  }

  predicate Genuine(c: Crypto, kind: byte, key: seq<byte>, digest: Digest, s: Sig) {
    s[BODY_SIZE..] == Signature(c, kind, key, digest, s[..BODY_SIZE])
  }

  /** The layout under which a first message verifies, the expected one being tried first. */
  function Recognized(c: Crypto, s: Sig, layout: Layout, text: seq<byte>): Option<Layout> {
    if Verifies(c, s, layout, text) then Some(layout)
    else if Verifies(c, s, Other(layout), text) then Some(Other(layout))
    else None
  }

  /** An RC4 cipher: its key, and how much of its key stream is used up. */
  datatype Cipher = Cipher(key: seq<byte>, used: nat)

  datatype Link = Plain | Ciphered(incoming: Cipher, outgoing: Cipher)

  /** The keys of both directions, from the secret shared with the owner of `theirs`. */
  function Keys(c: Crypto, secret: nat, theirs: PublicKey, ours: PublicKey): Option<Link> {
    var k := c.sharedSecret(secret, theirs);
    if k.None? then None
    else Some(Ciphered(Cipher(c.hmac(k.value, ours)[..RC4_KEY_SIZE], SIG_SIZE),
                       Cipher(c.hmac(k.value, theirs)[..RC4_KEY_SIZE], SIG_SIZE)))
  }

  datatype Reaction = Refused | Replied(reply: Sig, link: Link)

  /** What a party sends back on the peer's first message, and the link it is ready for. */
  function React(c: Crypto, m: Mode, secret: nat, own: Sig, peer: Sig, text: seq<byte>, key: seq<byte>,
                 body: seq<byte>): Reaction
    requires |body| == BODY_SIZE
  {
    if !m.signed then Replied(peer, Plain)
    else
      var layout := Recognized(c, peer, m.layout, text);
      if layout.None? then Refused
      else
        var reply := Signed(c, m.kind, key, DigestIn(peer, layout.value), body);
        if !m.encrypted then Replied(reply, Plain)
        else
          var link := Keys(c, secret, KeyIn(peer, layout.value), KeyIn(own, m.layout));
          if link.None? then Refused else Replied(reply, link.value)
  }

  /** A client takes over the server's type, and drops the signatures when an unsigned server answers type 3. */
  function Answered(m: Mode, kind: byte, peer: Sig): Mode {
    m.(kind := kind, signed := m.signed && !(kind == 3 && peer[4] == 0))
  }

  function ClientReacts(c: Crypto, m: Mode, secret: nat, own: Sig, kind: byte, peer: Sig, body: seq<byte>): Reaction
    requires |body| == BODY_SIZE
  {
    React(c, Answered(m, kind, peer), secret, own, peer, ServerText(), PlayerKey(), body)
  }

  function ServerReacts(c: Crypto, m: Mode, secret: nat, own: Sig, peer: Sig): Reaction {
    React(c, m, secret, own, peer, PlayerText(), ServerKey(), peer[..BODY_SIZE])
  }

  /** Whether the peer's second message is taken; an unsigned one is, whatever it holds. */
  predicate Accepts(c: Crypto, m: Mode, own: Sig, key: seq<byte>, last: Sig) {
    m.signed ==> Genuine(c, m.kind, key, DigestIn(own, m.layout), last)
  }

  //
  // Over an honest channel
  //

  /** How a client may open: with type 3 unencrypted, and with type 6 or 8 encrypted. */
  predicate Opens(m: Mode, version: byte) {
    && (if m.encrypted then m.signed && m.layout == 1 && (m.kind == 6 || m.kind == 8) else m.layout == 0 && m.kind == 3)
    && (!m.encrypted ==> m.signed == (version != 0))
  }

  lemma ClientOpens(encrypted: bool, swf: bool)
    ensures Opens(ClientMode(encrypted, swf), ClientVersion(ClientMode(encrypted, swf))[0])
  {}

  /** An honest party's reply is never refused, and passes the other's check. */
  lemma ReplyAccepted(c: Crypto, m: Mode, secret: nat, own: Sig, peer: Sig, text: seq<byte>, key: seq<byte>,
                      body: seq<byte>)
    requires |body| == BODY_SIZE
    requires m.signed ==> Verifies(c, peer, m.layout, text)
    requires m.encrypted ==> c.sharedSecret(secret, KeyIn(peer, m.layout)).Some?
    ensures var r := React(c, m, secret, own, peer, text, key, body);
      && r.Replied? && Accepts(c, m, peer, key, r.reply)
      && (m.signed && m.encrypted ==>
            Some(r.link) == Keys(c, secret, KeyIn(peer, m.layout), KeyIn(own, m.layout)))
      && (!m.encrypted ==> r.link == Plain)
  {
    hide Verifies, DigestIn, KeyIn, Signature;
    if m.signed {
      var s := Signed(c, m.kind, key, DigestIn(peer, m.layout), body);
      assert s[..BODY_SIZE] == body;
      assert s[BODY_SIZE..] == Signature(c, m.kind, key, DigestIn(peer, m.layout), body);
    }
  }

  /** Each side's outgoing cipher is the other's incoming one, at the same place of its key stream. */
  predicate Cross(a: Link, b: Link) {
    a.Ciphered? && b.Ciphered? && a.outgoing == b.incoming && a.incoming == b.outgoing
  }

  lemma KeysCross(c: Crypto, a: nat, b: nat)
    requires c.Commutes()
    ensures c.sharedSecret(a, c.publicKey(b)).Some? && c.sharedSecret(b, c.publicKey(a)).Some?
    ensures var x, y := Keys(c, a, c.publicKey(b), c.publicKey(a)), Keys(c, b, c.publicKey(a), c.publicKey(b));
      x.Some? && y.Some? && Cross(x.value, y.value)
  {
    assert c.Agree(a, b) && c.Agree(b, a);
  }

  /**
   * For every time, version, random fill and pair of private keys: neither side refuses, each accepts the other's
   * second message, and an encrypted session ends with the ciphers crossed.
   */
  lemma HandshakeCompletes(c: Crypto, m: Mode, start: seq<byte>, fill: seq<byte>, secret: nat, body: seq<byte>,
                           time: seq<byte>, serverFill: seq<byte>, serverSecret: nat)
    requires c.Commutes()
    requires |start| == 8 && |fill| == |serverFill| == SIG_SIZE - 8 && |body| == BODY_SIZE && |time| == 4
    requires Opens(m, start[4])
    ensures var first := Opening(c, m, start, fill, secret, PlayerText());
      var sm := ServerMode(m.kind, first);
      sm.Some? &&
      var answer := Opening(c, sm.value, time + ServerVersion(sm.value), serverFill, serverSecret, ServerText());
      var cm := Answered(m, sm.value.kind, answer);
      var up := ClientReacts(c, m, secret, first, sm.value.kind, answer, body);
      var down := ServerReacts(c, sm.value, serverSecret, answer, first);
      && cm.signed == m.signed == sm.value.signed
      && up.Replied? && down.Replied?
      && Accepts(c, cm, first, ServerKey(), down.reply)
      && Accepts(c, sm.value, answer, PlayerKey(), up.reply)
      && (if m.encrypted then Cross(up.link, down.link) else up.link == down.link == Plain)
  {
    hide Verifies, DigestIn, KeyIn, Signature, React, Opening, Accepts, Keys, Cross, ServerText, PlayerText, KeyTail;
    var first := Opening(c, m, start, fill, secret, PlayerText());
    OpeningRead(c, m, start, fill, secret, PlayerText());
    var sm := ServerMode(m.kind, first).value;
    var opening := time + ServerVersion(sm);
    var answer := Opening(c, sm, opening, serverFill, serverSecret, ServerText());
    OpeningRead(c, sm, opening, serverFill, serverSecret, ServerText());
    assert opening[4] == if sm.signed then 3 else 0;
    var cm := Answered(m, sm.kind, answer);
    assert cm == sm;
    KeysCross(c, secret, serverSecret);
    ReplyAccepted(c, cm, secret, first, answer, ServerText(), PlayerKey(), body);
    ReplyAccepted(c, sm, serverSecret, answer, first, PlayerText(), ServerKey(), first[..BODY_SIZE]);
  }
}
