/** The 1-RTT and 0-RTT handshakes of the VLESS encryption layer, as the messages both sides make and take apart. */
module EncryptionHandshake {
  import opened Bytes
  import opened Options
  import opened EncryptionSuite
  import opened EncryptionXor
  import opened EncryptionRecords
  import opened EncryptionRelays

  // ---- Sealing and reading piece by piece ----

  /** AEAD.Seal with its own counter and no additional data. */
  function Seal(s: Suite, a: Aead, plain: bytes): bytes {
    s.seal(a.useAES, a.key, NextNonce(a.nonce), plain, [])
  }

  function Open(s: Suite, a: Aead, sealed: bytes): Option<bytes> {
    s.open(a.useAES, a.key, NextNonce(a.nonce), sealed, [])
  }

  function Bump(a: Aead): Aead {
    a.(nonce := NextNonce(a.nonce))
  }

  lemma OpenSeal(s: Suite, a: Aead, plain: bytes)
    requires s.SealLaws()
    ensures Open(s, a, Seal(s, a, plain)) == Some(plain) && |Seal(s, a, plain)| == |plain| + 16
  {
  }

  function EncodeLength(n: nat): bytes {
    [Hi(n), Lo(n)]
  }

  function DecodeLength(b: bytes): nat
    requires |b| >= 2
  {
    U16(b[0], b[1])
  }

  /** io.ReadFull of n bytes: the bytes and what follows them. */
  function Take(b: bytes, n: nat): Option<(bytes, bytes)> {
    if |b| < n then None else Some((b[..n], b[n..]))
  }

  lemma TakeFront(a: bytes, rest: bytes)
    ensures Take(a + rest, |a|) == Some((a, rest))
  {
    assert (a + rest)[..|a|] == a && (a + rest)[|a|..] == rest;
  }

  // ---- Configuration, randomness and results ----

  /** What both Init functions fix: the relay keys and the XOR mode (0 native, 1 xorpub, 2 random). */
  datatype Config = Config(keys: seq<NfsKey>, xorMode: nat) {
    predicate Valid() {
      keys != []
    }
  }

  /** Everything a client draws at random for one handshake, and whether its hardware favours AES. */
  datatype ClientDraw = ClientDraw(useAES: bool, iv: bytes, coins: seq<bytes>, kemSecret: bytes, dhSecret: bytes, padding: nat)

  /** Everything a server draws: its ephemeral keys, the ticket, the padding length, and the random bytes of 0-RTT. */
  datatype ServerDraw = ServerDraw(kemCoins: bytes, dhSecret: bytes, ticket: bytes, padding: nat, random: bytes)

  /** A total padding length CreatPadding can return. */
  predicate PaddingInRange(n: nat) {
    35 <= n <= 65553
  }

  predicate GoodClient(c: Config, d: ClientDraw) {
    c.Valid() && |d.iv| == 16 && |d.coins| == |c.keys| && PaddingInRange(d.padding)
  }

  predicate GoodServer(d: ServerDraw) {
    |d.ticket| == 16 && |d.random| == 16 && PaddingInRange(d.padding)
  }

  /** What a keystream is made from. */
  datatype Keystream = Keystream(key: bytes, iv: bytes)

  /** One masked direction of XorConn: the keystream, if it is known yet, and the bytes to skip first. */
  datatype Masked = Masked(stream: Option<Keystream>, skip: nat)

  function MaskOf(key: bytes, iv: bytes, skip: nat): Masked {
    Masked(Some(Keystream(key, iv)), skip)
  }

  /** What a handshake leaves behind on one side. */
  datatype Side = Side(
    useAES: bool,
    united: bytes,
    preWrite: Option<bytes>,
    aead: Aead,
    peer: Option<Aead>,
    peerPadding: Option<nat>,
    outMask: Masked,
    inMask: Masked)

  // ---- The front part, common to both handshakes ----

  /** The sealed padding of a total length: its length field and its bytes, under two counters. */
  function SealedPadding(s: Suite, a: Aead, n: nat): bytes
    requires PaddingInRange(n)
  {
    Seal(s, a, EncodeLength(n - 18)) + Seal(s, Bump(a), Zeros(n - 34))
  }

  function NfsKeyOf(s: Suite, c: Config, d: ClientDraw): bytes
    requires GoodClient(c, d)
  {
    Derived(s, c.keys[|c.keys| - 1], d.coins[|d.coins| - 1])
  }

  function NfsAead(s: Suite, iv: bytes, nfsKey: bytes, useAES: bool): Aead {
    NewAead(s, iv, nfsKey, useAES)
  }

  /** The iv and the relays. */
  function Front(s: Suite, c: Config, d: ClientDraw): bytes
    requires s.AgreementLaws() && GoodClient(c, d)
  {
    d.iv + Relays(s, c.xorMode > 0, d.iv, c.keys, d.coins, None)
  }

  /** What the server knows after the first sealed length. */
  datatype Opened = Opened(iv: bytes, nfsKey: bytes, nfs: Aead, length: nat, rest: bytes)

  /** The length field under AES first, and if that fails under the other AEAD. */
  function OpenLength(s: Suite, iv: bytes, nfsKey: bytes, sealed: bytes): Option<(Aead, bytes)> {
    var aes := NfsAead(s, iv, nfsKey, true);
    var first := Open(s, aes, sealed);
    if first.Some? then Some((Bump(aes), first.value))
    else
      var chacha := NfsAead(s, iv, nfsKey, false);
      var second := Open(s, chacha, sealed);
      if second.Some? then Some((Bump(chacha), second.value)) else None
  }

  /** The server up to and including the length field. */
  function ServerOpen(s: Suite, c: Config, stream: bytes): Option<Opened>
    requires c.Valid()
  {
    var t := Take(stream, 16);
    if t.None? then None else
    var (iv, b) := t.value;
    var u := Take(b, RelaysLength(c.keys));
    if u.None? then None else
    var nfsKey := OpenRelays(s, c.xorMode > 0, iv, c.keys, u.value.0, None);
    if nfsKey.None? then None else
    var v := Take(u.value.1, 18);
    if v.None? then None else
    var o := OpenLength(s, iv, nfsKey.value, v.value.0);
    if o.None? || |o.value.1| < 2 then None
    else Some(Opened(iv, nfsKey.value, o.value.0, DecodeLength(o.value.1), v.value.1))
  }

  lemma OpenLengthAgrees(s: Suite, iv: bytes, nfsKey: bytes, useAES: bool, plain: bytes)
    requires s.SealLaws()
    ensures var a := NfsAead(s, iv, nfsKey, useAES);
            OpenLength(s, iv, nfsKey, Seal(s, a, plain)) == Some((Bump(a), plain))
  {
    var a := NfsAead(s, iv, nfsKey, useAES);
    OpenSeal(s, a, plain);
    if !useAES {
      assert s.open(!a.useAES, a.key, NextNonce(a.nonce), s.seal(a.useAES, a.key, NextNonce(a.nonce), plain, []), []).None?;
    }
  }

  /** The server finds the client's relay key, its choice of AEAD and the length, and has consumed exactly the front part. */
  lemma ServerOpens(s: Suite, c: Config, d: ClientDraw, n: nat, rest: bytes)
    requires s.SealLaws() && s.AgreementLaws() && GoodClient(c, d) && n < 0x1_0000
    ensures var a := NfsAead(s, d.iv, NfsKeyOf(s, c, d), d.useAES);
            ServerOpen(s, c, Front(s, c, d) + (Seal(s, a, EncodeLength(n)) + rest))
            == Some(Opened(d.iv, NfsKeyOf(s, c, d), Bump(a), n, rest))
  {
    hide Suite.AgreementLaws, Relays, OpenRelays, Suite.SealLaws, OpenLength, Seal, NextNonce;
    var relays := Relays(s, c.xorMode > 0, d.iv, c.keys, d.coins, None);
    var a := NfsAead(s, d.iv, NfsKeyOf(s, c, d), d.useAES);
    var sealed := Seal(s, a, EncodeLength(n));
    OpenSeal(s, a, EncodeLength(n));
    Assoc(d.iv, relays, sealed + rest);
    TakeFront(d.iv, relays + (sealed + rest));
    TakeFront(relays, sealed + rest);
    TakeFront(sealed, rest);
    RelayChain(s, c.xorMode > 0, d.iv, c.keys, d.coins, None);
    OpenLengthAgrees(s, d.iv, NfsKeyOf(s, c, d), d.useAES, EncodeLength(n));
    U16RoundTrip(n);
  }

  // ---- 1-RTT ----

  function ClientPfsPublic(s: Suite, d: ClientDraw): bytes {
    s.kemPublic(d.kemSecret) + s.dhPublic(d.dhSecret)
  }

  /** The client's hello: the front part, the sealed key exchange, the sealed padding. */
  function ClientHello(s: Suite, c: Config, d: ClientDraw): bytes
    requires s.AgreementLaws() && GoodClient(c, d)
  {
    var a := NfsAead(s, d.iv, NfsKeyOf(s, c, d), d.useAES);
    var pfs := ClientPfsPublic(s, d);
    Front(s, c, d) +
    (Seal(s, a, EncodeLength(1184 + 32 + 16)) + (Seal(s, Bump(a), pfs) + SealedPadding(s, Bump(Bump(a)), d.padding)))
  }

  /** What the server makes of the client's ephemeral public keys. */
  datatype Exchange = Exchange(pfsKey: bytes, pfsPublic: bytes, united: bytes)

  function ServerExchange(s: Suite, o: Opened, pfs: bytes, d: ServerDraw): Option<Exchange>
    requires |pfs| >= 1184 + 32
  {
    var ek := pfs[..1184];
    var shared := s.dhShared(d.dhSecret, pfs[1184..1184 + 32]);
    if shared.None? then None
    else
      var pfsKey := s.kemShared(ek, d.kemCoins) + shared.value;
      Some(Exchange(pfsKey, s.kemCiphertext(ek, d.kemCoins) + s.dhPublic(d.dhSecret), pfsKey + o.nfsKey))
  }

  /** The server's hello: its ephemeral keys under the reserved nonce, then the ticket and the padding under its own AEAD. */
  function ServerHello(s: Suite, o: Opened, x: Exchange, d: ServerDraw): bytes
    requires PaddingInRange(d.padding)
  {
    var a := NewAead(s, x.pfsPublic, x.united, o.nfs.useAES);
    s.seal(o.nfs.useAES, o.nfs.key, MAX_NONCE, x.pfsPublic, []) +
    (Seal(s, a, d.ticket) + SealedPadding(s, Bump(a), d.padding))
  }

  /** The server's side of a 1-RTT handshake: its hello, what it is left with, and the bytes behind the client's padding. */
  function ServerOneRtt(s: Suite, c: Config, o: Opened, d: ServerDraw): Option<(bytes, Side, bytes)>
    requires PaddingInRange(d.padding)
  {
    if o.length < 1184 + 32 + 16 then None else
    var t := Take(o.rest, o.length);
    if t.None? then None else
    var pfs := Open(s, o.nfs, t.value.0);
    if pfs.None? || |pfs.value| < 1184 + 32 then None else
    var x := ServerExchange(s, o, pfs.value, d);
    if x.None? then None else
    var nfs := Bump(o.nfs);
    var a := NewAead(s, x.value.pfsPublic, x.value.united, o.nfs.useAES);
    var peer := NewAead(s, pfs.value[..1184 + 32], x.value.united, o.nfs.useAES);
    var u := Take(t.value.1, 18);
    if u.None? then None else
    var len := Open(s, nfs, u.value.0);
    if len.None? || |len.value| < 2 then None else
    var v := Take(u.value.1, DecodeLength(len.value));
    if v.None? || Open(s, Bump(nfs), v.value.0).None? then None else
    Some((ServerHello(s, o, x.value, d),
          Side(o.nfs.useAES, x.value.united, None, Bump(Bump(Bump(a))), Some(peer), None,
               MaskOf(x.value.united, d.ticket, 0), MaskOf(x.value.united, o.iv, 0)),
          v.value.1))
  }

  /** The client's side: what it is left with after the server's ticket and padding length; the padding itself is still due. */
  function ClientOneRtt(s: Suite, c: Config, d: ClientDraw, stream: bytes): Option<(Side, bytes)>
    requires GoodClient(c, d)
  {
    var nfs := NfsAead(s, d.iv, NfsKeyOf(s, c, d), d.useAES);
    var t := Take(stream, 1088 + 32 + 16);
    if t.None? then None else
    var plain := s.open(nfs.useAES, nfs.key, MAX_NONCE, t.value.0, []);
    if plain.None? || |plain.value| < 1088 + 32 then None else
    var pfs := plain.value;
    var kemKey := s.kemOpen(d.kemSecret, pfs[..1088]);
    var dhKey := s.dhShared(d.dhSecret, pfs[1088..1088 + 32]);
    if kemKey.None? || dhKey.None? then None else
    var pfsKey := kemKey.value + dhKey.value;
    var united := pfsKey + NfsKeyOf(s, c, d);
    var a := NewAead(s, ClientPfsPublic(s, d), united, d.useAES);
    var peer := NewAead(s, pfs[..1088 + 32], united, d.useAES);
    var u := Take(t.value.1, 32);
    if u.None? then None else
    var ticket := Open(s, peer, u.value.0);
    if ticket.None? || |ticket.value| < 16 then None else
    var v := Take(u.value.1, 18);
    if v.None? then None else
    var len := Open(s, Bump(peer), v.value.0);
    if len.None? || |len.value| < 2 then None else
    var length := DecodeLength(len.value);
    Some((Side(d.useAES, united, None, a, Some(Bump(Bump(peer))), Some(length),
               MaskOf(united, d.iv, 0), MaskOf(united, ticket.value[..16], length)),
          v.value.1))
  }

  /** The keys both sides end up with, from the two draws alone. */
  function PfsKey(s: Suite, cd: ClientDraw, sd: ServerDraw): bytes {
    var dh := s.dhShared(sd.dhSecret, s.dhPublic(cd.dhSecret));
    s.kemShared(s.kemPublic(cd.kemSecret), sd.kemCoins) + if dh.Some? then dh.value else []
  }

  function ServerPfsPublic(s: Suite, cd: ClientDraw, sd: ServerDraw): bytes {
    s.kemCiphertext(s.kemPublic(cd.kemSecret), sd.kemCoins) + s.dhPublic(sd.dhSecret)
  }

  lemma PublicLengths(s: Suite, cd: ClientDraw, sd: ServerDraw)
    requires s.AgreementLaws()
    ensures var p := ClientPfsPublic(s, cd);
            |p| == 1184 + 32 && p[..1184] == s.kemPublic(cd.kemSecret) && p[1184..1184 + 32] == s.dhPublic(cd.dhSecret)
    ensures var q := ServerPfsPublic(s, cd, sd);
            && |q| == 1088 + 32 && q[..1088] == s.kemCiphertext(s.kemPublic(cd.kemSecret), sd.kemCoins)
            && q[1088..1088 + 32] == s.dhPublic(sd.dhSecret) && q[..1088 + 32] == q
    ensures ClientPfsPublic(s, cd)[..1184 + 32] == ClientPfsPublic(s, cd)
  {
    var a, b := s.kemPublic(cd.kemSecret), s.dhPublic(cd.dhSecret);
    assert |a| == 1184 && |b| == 32 && (a + b)[..1184] == a && (a + b)[1184..] == b;
    var x, y := s.kemCiphertext(a, sd.kemCoins), s.dhPublic(sd.dhSecret);
    assert |x| == 1088 && |y| == 32 && (x + y)[..1088] == x && (x + y)[1088..] == y;
  }

  /** Both sides compute the same forward-secret key. */
  lemma ExchangeAgrees(s: Suite, o: Opened, cd: ClientDraw, sd: ServerDraw)
    requires s.AgreementLaws()
    ensures |ClientPfsPublic(s, cd)| == 1184 + 32
    ensures ServerExchange(s, o, ClientPfsPublic(s, cd), sd) ==
            Some(Exchange(PfsKey(s, cd, sd), ServerPfsPublic(s, cd, sd), PfsKey(s, cd, sd) + o.nfsKey))
    ensures var q := ServerPfsPublic(s, cd, sd);
            && |q| == 1088 + 32 && s.kemOpen(cd.kemSecret, q[..1088]).Some? && s.dhShared(cd.dhSecret, q[1088..1088 + 32]).Some?
            && s.kemOpen(cd.kemSecret, q[..1088]).value + s.dhShared(cd.dhSecret, q[1088..1088 + 32]).value == PfsKey(s, cd, sd)
  {
    PublicLengths(s, cd, sd);
    assert s.dhShared(sd.dhSecret, s.dhPublic(cd.dhSecret)) == s.dhShared(cd.dhSecret, s.dhPublic(sd.dhSecret));
  }

  /** A sealed padding is taken apart in two steps: its length field, then its bytes. */
  lemma PaddingParts(s: Suite, a: Aead, n: nat, rest: bytes)
    requires s.SealLaws() && PaddingInRange(n)
    ensures var len, body := Seal(s, a, EncodeLength(n - 18)), Seal(s, Bump(a), Zeros(n - 34));
            && Take(SealedPadding(s, a, n) + rest, 18) == Some((len, body + rest))
            && Open(s, a, len) == Some(EncodeLength(n - 18)) && DecodeLength(EncodeLength(n - 18)) == n - 18
            && Take(body + rest, n - 18) == Some((body, rest)) && |body| == n - 18
            && Open(s, Bump(a), body).Some?
  {
    var len, body := Seal(s, a, EncodeLength(n - 18)), Seal(s, Bump(a), Zeros(n - 34));
    OpenSeal(s, a, EncodeLength(n - 18));
    OpenSeal(s, Bump(a), Zeros(n - 34));
    U16RoundTrip(n - 18);
    Assoc(len, body, rest);
    TakeFront(len, body + rest);
    TakeFront(body, rest);
  }

  function ServerSide(s: Suite, c: Config, cd: ClientDraw, sd: ServerDraw): Side
    requires GoodClient(c, cd)
  {
    var united := PfsKey(s, cd, sd) + NfsKeyOf(s, c, cd);
    Side(cd.useAES, united, None,
         Bump(Bump(Bump(NewAead(s, ServerPfsPublic(s, cd, sd), united, cd.useAES)))),
         Some(NewAead(s, ClientPfsPublic(s, cd), united, cd.useAES)), None,
         MaskOf(united, sd.ticket, 0), MaskOf(united, cd.iv, 0))
  }

  function ClientSide(s: Suite, c: Config, cd: ClientDraw, sd: ServerDraw): Side
    requires GoodClient(c, cd) && PaddingInRange(sd.padding)
  {
    var united := PfsKey(s, cd, sd) + NfsKeyOf(s, c, cd);
    Side(cd.useAES, united, None,
         NewAead(s, ClientPfsPublic(s, cd), united, cd.useAES),
         Some(Bump(Bump(NewAead(s, ServerPfsPublic(s, cd, sd), united, cd.useAES)))), Some(sd.padding - 18),
         MaskOf(united, cd.iv, 0), MaskOf(united, sd.ticket, sd.padding - 18))
  }

  /** The server accepts the client's hello and has read all of it. */
  lemma ServerAccepts(s: Suite, c: Config, cd: ClientDraw, sd: ServerDraw)
    requires s.SealLaws() && s.AgreementLaws() && GoodClient(c, cd) && GoodServer(sd)
    ensures var a := NfsAead(s, cd.iv, NfsKeyOf(s, c, cd), cd.useAES);
            var o := ServerOpen(s, c, ClientHello(s, c, cd));
            && o.Some? && o.value.nfs == Bump(a) && o.value.nfsKey == NfsKeyOf(s, c, cd) && o.value.iv == cd.iv
            && ServerOneRtt(s, c, o.value, sd) ==
               Some((ServerHello(s, o.value, Exchange(PfsKey(s, cd, sd), ServerPfsPublic(s, cd, sd),
                                                      PfsKey(s, cd, sd) + NfsKeyOf(s, c, cd)), sd),
                     ServerSide(s, c, cd, sd), []))
  {
    hide Suite.AgreementLaws, Suite.SealLaws, Front, Seal, Open, NextNonce, SealedPadding, ClientPfsPublic, ServerPfsPublic, PfsKey,
      ServerHello, ServerExchange, NfsKeyOf, EncodeLength, DecodeLength, Take, ServerOpen;
    var a := NfsAead(s, cd.iv, NfsKeyOf(s, c, cd), cd.useAES);
    var pfs := ClientPfsPublic(s, cd);
    var sealed, padding := Seal(s, Bump(a), pfs), SealedPadding(s, Bump(Bump(a)), cd.padding);
    ServerOpens(s, c, cd, 1184 + 32 + 16, sealed + padding);
    var o := Opened(cd.iv, NfsKeyOf(s, c, cd), Bump(a), 1184 + 32 + 16, sealed + padding);
    ExchangeAgrees(s, o, cd, sd);
    OpenSeal(s, Bump(a), pfs);
    TakeFront(sealed, padding);
    NilRight(padding);
    PaddingParts(s, Bump(Bump(a)), cd.padding, []);
    NilRight(Seal(s, Bump(Bump(Bump(a))), Zeros(cd.padding - 34)));
    assert pfs[..1184 + 32] == pfs;
    EncodeLengthSize(cd.padding - 18);
  }

  lemma EncodeLengthSize(n: nat)
    ensures |EncodeLength(n)| == 2
  {
  }

  /** The client accepts the server's hello and has read all of it but the padding bytes. */
  lemma ClientAccepts(s: Suite, c: Config, cd: ClientDraw, sd: ServerDraw, o: Opened)
    requires s.SealLaws() && s.AgreementLaws() && GoodClient(c, cd) && GoodServer(sd)
    requires o.nfs == Bump(NfsAead(s, cd.iv, NfsKeyOf(s, c, cd), cd.useAES)) && o.nfsKey == NfsKeyOf(s, c, cd)
    ensures var united := PfsKey(s, cd, sd) + NfsKeyOf(s, c, cd);
            var x := Exchange(PfsKey(s, cd, sd), ServerPfsPublic(s, cd, sd), united);
            var b := NewAead(s, x.pfsPublic, united, cd.useAES);
            ClientOneRtt(s, c, cd, ServerHello(s, o, x, sd)) ==
            Some((ClientSide(s, c, cd, sd), Seal(s, Bump(Bump(b)), Zeros(sd.padding - 34))))
  {
    hide Suite.AgreementLaws, Seal, Open, NextNonce, SealedPadding, ClientPfsPublic, ServerPfsPublic, PfsKey,
      NfsKeyOf, EncodeLength, DecodeLength, Take;
    var q, united := ServerPfsPublic(s, cd, sd), PfsKey(s, cd, sd) + NfsKeyOf(s, c, cd);
    var b := NewAead(s, q, united, cd.useAES);
    var nfs := o.nfs;
    var sealed := s.seal(nfs.useAES, nfs.key, MAX_NONCE, q, []);
    ExchangeAgrees(s, o, cd, sd);
    assert |sealed| == |q| + 16 && s.open(nfs.useAES, nfs.key, MAX_NONCE, sealed, []) == Some(q);
    var ticket, padding := Seal(s, b, sd.ticket), SealedPadding(s, Bump(b), sd.padding);
    OpenSeal(s, b, sd.ticket);
    TakeFront(sealed, ticket + padding);
    TakeFront(ticket, padding);
    NilRight(padding);
    PaddingParts(s, Bump(b), sd.padding, []);
    NilRight(Seal(s, Bump(Bump(b)), Zeros(sd.padding - 34)));
    assert q[..1088 + 32] == q && sd.ticket[..16] == sd.ticket;
    EncodeLengthSize(sd.padding - 18);
  }

  /** Two sides that can talk: what one sends the other is ready to read, in the clear and through the masks. */
  ghost predicate Talk(s: Suite, from: Side, to: Side, due: bytes) {
    && from.united == to.united && from.useAES == to.useAES
    // whatever records are sent, the receiver is in step with them behind the bytes still due to it
    && (forall chunks: seq<bytes>, client: bool :: GoodChunks(chunks) ==>
          InSync(s, to.united, to.useAES, In(to.peer, to.peerPadding, [], due + SendAll(s, from.united, from.aead, chunks), client), chunks))
  }

  /**
   * After a 1-RTT handshake, for any relay keys, any draws and either AEAD: both sides hold the same united key, each
   * side's records are the ones the other expects (the client after dropping the padding still due), and each pair of
   * masks has the same keystream, with the client skipping exactly that padding.
   */
  lemma OneRtt(s: Suite, c: Config, cd: ClientDraw, sd: ServerDraw)
    requires s.SealLaws() && s.AgreementLaws() && GoodClient(c, cd) && GoodServer(sd)
    ensures var o := ServerOpen(s, c, ClientHello(s, c, cd));
            && o.Some?
            && var r := ServerOneRtt(s, c, o.value, sd);
            && r.Some? && r.value.2 == []
            && var (hello, server, _) := r.value;
            var q := ClientOneRtt(s, c, cd, hello);
            && q.Some?
            && var (client, due) := q.value;
            && Talk(s, client, server, []) && Talk(s, server, client, due)
            && server.inMask == client.outMask
            && client.inMask == server.outMask.(skip := server.outMask.skip + |due|)
  {
    hide ServerOpen, ServerOneRtt, ClientOneRtt, ClientHello, ServerHello, Suite.AgreementLaws, SendAll, InSync;
    ServerAccepts(s, c, cd, sd);
    var o := ServerOpen(s, c, ClientHello(s, c, cd)).value;
    ClientAccepts(s, c, cd, sd, o);
    OneRttTalk(s, c, cd, sd);
  }

  lemma OneRttTalk(s: Suite, c: Config, cd: ClientDraw, sd: ServerDraw)
    requires s.SealLaws() && GoodClient(c, cd) && GoodServer(sd)
    ensures var client, server := ClientSide(s, c, cd, sd), ServerSide(s, c, cd, sd);
            var b := NewAead(s, ServerPfsPublic(s, cd, sd), server.united, cd.useAES);
            var due := Seal(s, Bump(Bump(b)), Zeros(sd.padding - 34));
            && Talk(s, client, server, []) && Talk(s, server, client, due) && |due| == sd.padding - 18
  {
    hide ClientPfsPublic, ServerPfsPublic, PfsKey, NfsKeyOf, NextNonce, SendAll, NewAead;
    var client, server := ClientSide(s, c, cd, sd), ServerSide(s, c, cd, sd);
    var b := NewAead(s, ServerPfsPublic(s, cd, sd), server.united, cd.useAES);
    var due := Seal(s, Bump(Bump(b)), Zeros(sd.padding - 34));
    OpenSeal(s, Bump(Bump(b)), Zeros(sd.padding - 34));
    forall chunks: seq<bytes>, isClient: bool | GoodChunks(chunks)
      ensures InSync(s, server.united, server.useAES, In(server.peer, server.peerPadding, [], [] + SendAll(s, client.united, client.aead, chunks), isClient), chunks)
      ensures InSync(s, client.united, client.useAES, In(client.peer, client.peerPadding, [], due + SendAll(s, server.united, server.aead, chunks), isClient), chunks)
    {
      var down := SendAll(s, server.united, server.aead, chunks);
      TakeFront(due, down);
      assert (due + down)[..|due|] == due && (due + down)[|due|..] == down;
      assert [] + SendAll(s, client.united, client.aead, chunks) == SendAll(s, client.united, client.aead, chunks);
    }
  }

  // ---- 0-RTT ----

  /** A client that holds a ticket: its side, with the hello still to be written in front of its first record. */
  function ClientZeroRtt(s: Suite, c: Config, d: ClientDraw, pfsKey: bytes, ticket: bytes): Side
    requires s.AgreementLaws() && GoodClient(c, d)
  {
    var a := NfsAead(s, d.iv, NfsKeyOf(s, c, d), d.useAES);
    var sealed := Seal(s, Bump(a), ticket);
    var united := pfsKey + NfsKeyOf(s, c, d);
    var preWrite := Front(s, c, d) + (Seal(s, a, EncodeLength(32)) + sealed);
    Side(d.useAES, united, Some(preWrite), NewAead(s, sealed, united, d.useAES), None, None,
         MaskOf(united, d.iv, |preWrite|), Masked(None, 16))
  }

  /** The server's side of a 0-RTT handshake, given the session the ticket names, and the bytes behind the hello. */
  function ServerZeroRtt(s: Suite, o: Opened, sessions: map<bytes, bytes>, d: ServerDraw): Option<(Side, bytes)> {
    if o.length != 32 then None else
    var t := Take(o.rest, 32);
    if t.None? then None else
    var ticket := Open(s, o.nfs, t.value.0);
    if ticket.None? || ticket.value !in sessions then None else
    var united := sessions[ticket.value] + o.nfsKey;
    Some((Side(o.nfs.useAES, united, Some(d.random),
               NewAead(s, d.random, united, o.nfs.useAES), Some(NewAead(s, t.value.0, united, o.nfs.useAES)), None,
               MaskOf(united, d.random, 16), MaskOf(united, o.iv, 0)),
          t.value.1))
  }

  /**
   * After a 0-RTT handshake with a ticket the server still knows: the same united key, the client's records are the ones
   * the server expects behind the hello, the server's are the ones the client expects behind the random bytes, from which
   * the client derives the server's AEAD and mask, and both sides skip exactly those unmasked front parts.
   */
  lemma ZeroRtt(s: Suite, c: Config, cd: ClientDraw, sd: ServerDraw, ticket: bytes, sessions: map<bytes, bytes>, first: bytes)
    requires s.SealLaws() && s.AgreementLaws() && GoodClient(c, cd) && GoodServer(sd)
    requires |ticket| == 16 && ticket in sessions
    ensures var client := ClientZeroRtt(s, c, cd, sessions[ticket], ticket);
            var o := ServerOpen(s, c, client.preWrite.value + first);
            && o.Some?
            && var r := ServerZeroRtt(s, o.value, sessions, sd);
            && r.Some? && r.value.1 == first
            && var server := r.value.0;
            && Talk(s, client, server, []) && Talk(s, server, client, sd.random) && server.preWrite == Some(sd.random)
            && server.inMask == client.outMask.(skip := 0) && client.outMask.skip == |client.preWrite.value|
            && client.inMask.stream == None && client.inMask.skip == |sd.random|
            && server.outMask == client.inMask.(stream := Some(Keystream(client.united, sd.random)))
  {
    var nfsKey := NfsKeyOf(s, c, cd);
    var a := NfsAead(s, cd.iv, nfsKey, cd.useAES);
    var front, len, sealed := Front(s, c, cd), Seal(s, a, EncodeLength(32)), Seal(s, Bump(a), ticket);
    var united := sessions[ticket] + nfsKey;
    assert (front + (len + sealed)) + first == front + (len + (sealed + first)) by {
      Assoc(front, len + sealed, first);
      Assoc(len, sealed, first);
    }
    ServerOpens(s, c, cd, 32, sealed + first);
    OpenSeal(s, Bump(a), ticket);
    TakeFront(sealed, first);
    ZeroRttTalk(s, cd.useAES, united, sealed, sd.random);
  }

  lemma ZeroRttTalk(s: Suite, useAES: bool, united: bytes, sealed: bytes, random: bytes)
    requires |random| == 16
    ensures var up, down := NewAead(s, sealed, united, useAES), NewAead(s, random, united, useAES);
            forall chunks: seq<bytes>, isClient: bool :: GoodChunks(chunks) ==>
              && InSync(s, united, useAES, In(Some(up), None, [], [] + SendAll(s, united, up, chunks), isClient), chunks)
              && InSync(s, united, useAES, In(None, None, [], random + SendAll(s, united, down, chunks), isClient), chunks)
  {
    hide NewAead, SendAll;
    var up, down := NewAead(s, sealed, united, useAES), NewAead(s, random, united, useAES);
    forall chunks: seq<bytes>, isClient: bool | GoodChunks(chunks)
      ensures InSync(s, united, useAES, In(Some(up), None, [], [] + SendAll(s, united, up, chunks), isClient), chunks)
      ensures InSync(s, united, useAES, In(None, None, [], random + SendAll(s, united, down, chunks), isClient), chunks)
    {
      var d := SendAll(s, united, down, chunks);
      assert (random + d)[..16] == random && (random + d)[16..] == d;
      assert [] + SendAll(s, united, up, chunks) == SendAll(s, united, up, chunks);
    }
  }

  // ---- After the handshake ----

  /** The XorConn a side puts around its connection: one half per direction, at the first header behind its skip. */
  method NewMasks(s: Suite, side: Side) returns (conn: XorConn)
    requires side.outMask.stream.Some?
    ensures fresh(conn) && conn.Valid()
    ensures conn.out == Half(side.outMask.skip, [], 0) && conn.inn == Half(side.inMask.skip, [], 0)
    ensures conn.ctr == Ctr(s, side.outMask.stream.value.key, side.outMask.stream.value.iv)
    ensures conn.peerCtr.Some? <==> side.inMask.stream.Some?
    ensures conn.peerCtr.Some? ==> conn.peerCtr.value == Ctr(s, side.inMask.stream.value.key, side.inMask.stream.value.iv)
  {
    var k := side.outMask.stream.value;
    var peer: Option<nat -> byte> := None;
    if side.inMask.stream.Some? {
      peer := Some(Ctr(s, side.inMask.stream.value.key, side.inMask.stream.value.iv));
    }
    conn := new XorConn(Ctr(s, k.key, k.iv), peer, side.outMask.skip, side.inMask.skip);
  }

  /**
   * The first read of a 0-RTT client through its masks: the server's random bytes come through as they are, however they
   * are fragmented, and behind them it reads with the keystream the server writes with, from its first position.
   */
  method MeetServer(s: Suite, client: Side, conn: XorConn, fragments: seq<bytes>) returns (random: array<byte>)
    requires conn.Valid() && client.inMask == Masked(None, 16) && conn.peerCtr == None && conn.inn == Half(16, [], 0)
    requires |Concat(fragments)| == 16
    modifies conn
    ensures conn.Valid() && random[..] == Concat(fragments) && conn.inn == Half(0, [], 0)
    ensures conn.peerCtr == Some(Ctr(s, client.united, random[..]))
  {
    random := conn.ReadServerRandom(fragments);
    conn.peerCtr := Some(Ctr(s, client.united, random[..]));
  }

  /** Where the counters stand when the handshake is over: the client has sealed nothing under its key, the server three times. */
  lemma CountersAfterOneRtt(s: Suite, c: Config, cd: ClientDraw, sd: ServerDraw)
    requires GoodClient(c, cd) && GoodServer(sd)
    ensures ClientSide(s, c, cd, sd).aead.nonce == NonceOf(0) && ServerSide(s, c, cd, sd).aead.nonce == NonceOf(3)
  {
    hide NextNonce, ClientPfsPublic, ServerPfsPublic, PfsKey, NfsKeyOf;
    assert NonceOf(3) == NextNonce(NonceOf(2)) == NextNonce(NextNonce(NonceOf(1)));
  }

  /** The relay key's AEAD is used by both sides: the server's explicit nonce is none of those the client's hello counts up to. */
  lemma ServerHelloNonce(i: nat)
    requires i < Pow256(12) - 1
    ensures NonceOf(i) != MAX_NONCE
  {
    hide Pow256, NonceOf;
    RekeyAt(i);
  }

  /** The skip of a reader that still has `due` unmasked bytes before it lines up with the writer's mask. */
  lemma {:induction false} SkipsLineUp(ks: nat -> byte, k: nat, due: bytes, plain: bytes)
    ensures Unmask(ks, Half(k + |due|, [], 0), due + Mask(ks, Half(k, [], 0), plain)) == due + plain
    decreases |due|
  {
    var m := Mask(ks, Half(k, [], 0), plain);
    if due == [] {
      assert [] + m == m && [] + plain == plain;
      UnmaskMask(ks, Half(k, [], 0), plain);
    } else {
      var x, rest := due[0], due[1..];
      SkipsLineUp(ks, k, rest, plain);
      assert due == [x] + rest;
      Assoc([x], rest, m);
      Assoc([x], rest, plain);
      assert (due + m)[1..] == rest + m;
    }
  }

  /**
   * Two sides that can talk do: whatever one side writes in whatever pieces, masked or not, and however the wire fragments
   * it behind the bytes still due, the other side's reads return those bytes in order, all of them given enough reads.
   */
  lemma TalkDelivers(s: Suite, from: Side, to: Side, due: bytes, ks: nat -> byte, k: nat, writes: seq<bytes>, fragments: seq<bytes>,
                     sizes: seq<nat>, client: bool)
    requires s.SealLaws() && Talk(s, from, to, due) && forall i :: 0 <= i < |sizes| ==> sizes[i] > 0
    requires Concat(fragments) == due + Mask(ks, Half(k, [], 0), WriteAll(s, from.united, from.aead, writes))
    ensures var wire := UnmaskAll(ks, Half(k + |due|, [], 0), fragments);
            var i := In(to.peer, to.peerPadding, [], wire, client);
            && wire == due + WriteAll(s, from.united, from.aead, writes)
            && ReadRun(s, to.united, to.useAES, i, sizes) <= Concat(writes)
            && (|sizes| >= |Concat(writes)| ==> ReadRun(s, to.united, to.useAES, i, sizes) == Concat(writes))
  {
    hide Mask, Unmask, UnmaskAll, SendAll, InSync, ReadRun, Concat, WriteAll, Suite.SealLaws;
    var sent := WriteAll(s, from.united, from.aead, writes);
    UnmaskAllConcat(ks, Half(k + |due|, [], 0), fragments);
    SkipsLineUp(ks, k, due, sent);
    WriteAllPieces(s, from.united, from.aead, writes);
    var i := In(to.peer, to.peerPadding, [], due + sent, client);
    ReadsDeliver(s, to.united, to.useAES, i, Pieces(writes), sizes);
    assert [] + Concat(writes) == Concat(writes);
  }
}
