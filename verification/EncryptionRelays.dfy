/** The relay chain in front of every handshake: each relay key unlocks the next one, for any mix of X25519 and ML-KEM keys. */
module EncryptionRelays {
  import opened Bytes
  import opened Options
  import opened EncryptionSuite

  /** A relay's static key pair, by its secret half; kem tells ML-KEM-768 from X25519. */
  datatype NfsKey = NfsKey(kem: bool, secret: bytes)

  function Public(s: Suite, k: NfsKey): bytes {
    if k.kem then s.kemPublic(k.secret) else s.dhPublic(k.secret)
  }

  /** Bytes a relay takes: an X25519 public key or an ML-KEM ciphertext. */
  function Index(k: NfsKey): nat {
    if k.kem then 1088 else 32
  }

  /** What the client sends for a key, with fresh coins. */
  function Offer(s: Suite, k: NfsKey, coins: bytes): bytes {
    if k.kem then s.kemCiphertext(Public(s, k), coins) else s.dhPublic(coins)
  }

  /** The key the client derives. */
  function Derived(s: Suite, k: NfsKey, coins: bytes): bytes {
    if k.kem then s.kemShared(Public(s, k), coins)
    else var x := s.dhShared(coins, Public(s, k)); if x.Some? then x.value else []
  }

  /** The key the server recovers from an offer, if it accepts it. */
  function Recovered(s: Suite, k: NfsKey, offer: bytes): Option<bytes>
    requires |offer| == Index(k)
  {
    if k.kem then s.kemOpen(k.secret, offer)
    else if offer[31] > 127 then None
    else s.dhShared(k.secret, offer)
  }

  lemma OfferRecovered(s: Suite, k: NfsKey, coins: bytes)
    requires s.AgreementLaws()
    ensures |Offer(s, k, coins)| == Index(k) && |Derived(s, k, coins)| == 32
    ensures Recovered(s, k, Offer(s, k, coins)) == Some(Derived(s, k, coins))
  {
  }

  /** RelaysLength of both Init functions: a 32-byte hash between any two relays. */
  function RelaysLength(keys: seq<NfsKey>): nat
    requires keys != []
  {
    Index(keys[0]) + if |keys| == 1 then 0 else 32 + RelaysLength(keys[1..])
  }

  function Ctr(s: Suite, key: bytes, iv: bytes): nat -> byte {
    i => s.stream(key, iv, i)
  }

  /** XORKeyStream on the first n bytes of b. */
  function XorFront(ks: nat -> byte, pos: nat, n: nat, b: bytes): (r: bytes)
    requires n <= |b|
    ensures |r| == |b|
  {
    XorStream(ks, pos, b[..n]) + b[n..]
  }

  lemma XorFrontUndoes(ks: nat -> byte, pos: nat, n: nat, b: bytes)
    requires n <= |b|
    ensures XorFront(ks, pos, n, XorFront(ks, pos, n, b)) == b
  {
    var x := XorStream(ks, pos, b[..n]);
    assert XorFront(ks, pos, n, b)[..n] == x && XorFront(ks, pos, n, b)[n..] == b[n..];
    XorStreamUndoes(ks, pos, b[..n]);
    assert b[..n] + b[n..] == b;
  }

  /** One relay on the wire: the offer, masked by the relay's own public key and chained to the previous relay's key. */
  function Relay(s: Suite, xor: bool, iv: bytes, k: NfsKey, coins: bytes, last: Option<bytes>): (r: bytes)
    requires s.AgreementLaws()
    ensures |r| == Index(k)
  {
    OfferRecovered(s, k, coins);
    var offer := Offer(s, k, coins);
    var masked := if xor then XorFront(Ctr(s, Public(s, k), iv), 0, Index(k), offer) else offer;
    if last.Some? then XorFront(Ctr(s, last.value, iv), 32, 32, masked) else masked
  }

  /** The client's chain. */
  function Relays(s: Suite, xor: bool, iv: bytes, keys: seq<NfsKey>, coins: seq<bytes>, last: Option<bytes>): (r: bytes)
    requires s.AgreementLaws() && keys != [] && |keys| == |coins|
    ensures |r| == RelaysLength(keys)
    decreases |keys|
  {
    var relay := Relay(s, xor, iv, keys[0], coins[0], last);
    if |keys| == 1 then relay
    else
      var key := Derived(s, keys[0], coins[0]);
      var hash := XorStream(Ctr(s, key, iv), 0, s.hash32(Public(s, keys[1])));
      relay + (hash + Relays(s, xor, iv, keys[1..], coins[1..], Some(key)))
  }

  /** The offer the server finds in front of the relays that are left. */
  function Unmasked(s: Suite, xor: bool, iv: bytes, k: NfsKey, relay: bytes, last: Option<bytes>): (offer: bytes)
    requires |relay| == Index(k)
    ensures |offer| == Index(k)
  {
    var masked := if last.Some? then XorFront(Ctr(s, last.value, iv), 32, 32, relay) else relay;
    if xor then XorFront(Ctr(s, Public(s, k), iv), 0, Index(k), masked) else masked
  }

  /** The server's loop over the relays. */
  function OpenRelays(s: Suite, xor: bool, iv: bytes, keys: seq<NfsKey>, relays: bytes, last: Option<bytes>): Option<bytes>
    requires keys != [] && |relays| == RelaysLength(keys)
    decreases |keys|
  {
    var n := Index(keys[0]);
    var key := Recovered(s, keys[0], Unmasked(s, xor, iv, keys[0], relays[..n], last));
    if key.None? || |keys| == 1 then key
    else if XorStream(Ctr(s, key.value, iv), 0, relays[n..n + 32]) != s.hash32(Public(s, keys[1])) then None
    else OpenRelays(s, xor, iv, keys[1..], relays[n + 32..], key)
  }

  lemma RelayUnmasked(s: Suite, xor: bool, iv: bytes, k: NfsKey, coins: bytes, last: Option<bytes>)
    requires s.AgreementLaws()
    ensures Unmasked(s, xor, iv, k, Relay(s, xor, iv, k, coins, last), last) == Offer(s, k, coins)
  {
    OfferRecovered(s, k, coins);
    var offer := Offer(s, k, coins);
    XorFrontUndoes(Ctr(s, Public(s, k), iv), 0, Index(k), offer);
    if last.Some? {
      var masked := if xor then XorFront(Ctr(s, Public(s, k), iv), 0, Index(k), offer) else offer;
      XorFrontUndoes(Ctr(s, last.value, iv), 32, 32, masked);
    }
  }

  /** The server undoes the client's chain, consumes exactly its bytes, and ends with the client's last key. */
  lemma {:induction false} RelayChain(s: Suite, xor: bool, iv: bytes, keys: seq<NfsKey>, coins: seq<bytes>, last: Option<bytes>)
    requires s.AgreementLaws() && keys != [] && |keys| == |coins|
    ensures OpenRelays(s, xor, iv, keys, Relays(s, xor, iv, keys, coins, last), last)
            == Some(Derived(s, keys[|keys| - 1], coins[|coins| - 1]))
    decreases |keys|
  {
    hide XorFront, Recovered, Offer, Derived, Public, Relay, Unmasked;
    var relay := Relay(s, xor, iv, keys[0], coins[0], last);
    var all := Relays(s, xor, iv, keys, coins, last);
    RelayUnmasked(s, xor, iv, keys[0], coins[0], last);
    OfferRecovered(s, keys[0], coins[0]);
    if |keys| == 1 {
      assert all[..Index(keys[0])] == relay;
    } else {
      var key := Derived(s, keys[0], coins[0]);
      var h := s.hash32(Public(s, keys[1]));
      var hash := XorStream(Ctr(s, key, iv), 0, h);
      var rest := Relays(s, xor, iv, keys[1..], coins[1..], Some(key));
      Cut3(relay, hash, rest);
      XorStreamUndoes(Ctr(s, key, iv), 0, h);
      RelayChain(s, xor, iv, keys[1..], coins[1..], Some(key));
    }
  }

  lemma Cut3(a: bytes, b: bytes, c: bytes)
    ensures (a + (b + c))[..|a|] == a
    ensures (a + (b + c))[|a|..|a| + |b|] == b
    ensures (a + (b + c))[|a| + |b|..] == c
  {
  }

  // ---- The loops, in place ----

  /** copy(relays[lo:], data). */
  method CopyIn(a: array<byte>, lo: nat, data: bytes)
    requires lo + |data| <= a.Length
    modifies a
    ensures a[..lo] == old(a[..lo]) && a[lo..lo + |data|] == data && a[lo + |data|..] == old(a[lo + |data|..])
  {
    forall k | 0 <= k < |data| {
      a[lo + k] := data[k];
    }
  }

  /** XORKeyStream(relays, relays[:n]) from the slice that starts at lo. */
  method XorSlice(a: array<byte>, lo: nat, n: nat, ghost m: nat, ks: nat -> byte, pos: nat)
    requires n <= m && lo + m <= a.Length
    modifies a
    ensures a[..lo] == old(a[..lo]) && a[lo + m..] == old(a[lo + m..])
    ensures a[lo..lo + m] == XorFront(ks, pos, n, old(a[lo..lo + m]))
  {
    ghost var before := a[..];
    XorInPlace(a, lo, n, ks, pos);
    SliceOf(before, XorStream(ks, pos, before[lo..lo + n]), a[..], lo, n, m);
  }

  lemma SliceOf(before: bytes, x: bytes, after: bytes, lo: nat, n: nat, m: nat)
    requires n <= m && lo + m <= |before| && |x| == n && after == before[..lo] + x + before[lo + n..]
    ensures after[..lo] == before[..lo] && after[lo + m..] == before[lo + m..]
    ensures after[lo..lo + m] == x + before[lo..lo + m][n..]
    ensures before[lo..lo + m][..n] == before[lo..lo + n]
  {
    var front, c, tail := before[..lo], before[lo + n..lo + m], before[lo + m..];
    assert before[lo + n..] == c + tail && before[lo..lo + m][n..] == c;
    assert after == front + (x + c) + tail;
    assert after[lo..lo + m] == x + c;
  }

  /** One relay of the client's loop, written into its place. */
  method WriteRelay(relays: array<byte>, p: nat, s: Suite, xor: bool, iv: bytes, k: NfsKey, coins: bytes, last: Option<bytes>)
    requires s.AgreementLaws() && p + Index(k) <= relays.Length
    modifies relays
    ensures relays[..p] == old(relays[..p])
    ensures relays[p..p + Index(k)] == Relay(s, xor, iv, k, coins, last)
  {
    hide XorFront, XorStream, Derived, Recovered, Suite.AgreementLaws;
    OfferRecovered(s, k, coins);
    CopyIn(relays, p, Offer(s, k, coins));
    if xor {
      XorSlice(relays, p, Index(k), Index(k), Ctr(s, Public(s, k), iv), 0);
    }
    if last.Some? {
      XorSlice(relays, p, 32, Index(k), Ctr(s, last.value, iv), 32);
    }
  }

  /** A relay that is not the last, and behind it the hash of the next relay's public key. */
  method WriteRelayAndHash(relays: array<byte>, p: nat, s: Suite, xor: bool, iv: bytes, k: NfsKey, coins: bytes,
                           last: Option<bytes>, next: NfsKey) returns (nfsKey: bytes)
    requires s.AgreementLaws() && p + Index(k) + 32 <= relays.Length
    modifies relays
    ensures nfsKey == Derived(s, k, coins)
    ensures relays[..p + Index(k) + 32] ==
            (old(relays[..p]) + Relay(s, xor, iv, k, coins, last)) + HashRelay(s, iv, nfsKey, next)
  {
    hide Relay, HashRelay;
    WriteRelay(relays, p, s, xor, iv, k, coins, last);
    nfsKey := Derived(s, k, coins);
    var n := p + Index(k);
    assert relays[..n] == relays[..p] + relays[p..n];
    CopyIn(relays, n, HashRelay(s, iv, nfsKey, next));
    assert relays[..n + 32] == relays[..n] + relays[n..n + 32];
  }

  method WriteLastRelay(relays: array<byte>, p: nat, s: Suite, xor: bool, iv: bytes, k: NfsKey, coins: bytes, last: Option<bytes>)
    returns (nfsKey: bytes)
    requires s.AgreementLaws() && p + Index(k) == relays.Length
    modifies relays
    ensures nfsKey == Derived(s, k, coins)
    ensures relays[..] == old(relays[..p]) + Relay(s, xor, iv, k, coins, last)
  {
    hide Relay, Derived;
    WriteRelay(relays, p, s, xor, iv, k, coins, last);
    nfsKey := Derived(s, k, coins);
    assert relays[..] == relays[..p] + relays[p..p + Index(k)];
  }

  function HashRelay(s: Suite, iv: bytes, key: bytes, next: NfsKey): (r: bytes)
    requires s.AgreementLaws()
    ensures |r| == 32
  {
    XorStream(Ctr(s, key, iv), 0, s.hash32(Public(s, next)))
  }

  /** The chain from relay j on, one relay unfolded. */
  lemma RelaysFrom(s: Suite, xor: bool, iv: bytes, keys: seq<NfsKey>, coins: seq<bytes>, last: Option<bytes>, j: nat)
    requires s.AgreementLaws() && |keys| == |coins| && j < |keys|
    ensures RelaysLength(keys[j..]) == Index(keys[j]) + if j + 1 == |keys| then 0 else 32 + RelaysLength(keys[j + 1..])
    ensures var relay, key := Relay(s, xor, iv, keys[j], coins[j], last), Derived(s, keys[j], coins[j]);
            Relays(s, xor, iv, keys[j..], coins[j..], last) ==
            if j + 1 == |keys| then relay
            else relay + (HashRelay(s, iv, key, keys[j + 1]) + Relays(s, xor, iv, keys[j + 1..], coins[j + 1..], Some(key)))
  {
    hide Relay, XorStream, Public, Derived;
    if j + 1 < |keys| {
      assert keys[j..][1..] == keys[j + 1..] && coins[j..][1..] == coins[j + 1..];
    }
  }

  /** The client's loop fills the relay part of its hello. */
  method FillRelays(relays: array<byte>, s: Suite, xor: bool, iv: bytes, keys: seq<NfsKey>, coins: seq<bytes>) returns (nfsKey: bytes)
    requires s.AgreementLaws() && keys != [] && |keys| == |coins| && relays.Length == RelaysLength(keys)
    modifies relays
    ensures relays[..] == Relays(s, xor, iv, keys, coins, None)
    ensures nfsKey == Derived(s, keys[|keys| - 1], coins[|coins| - 1])
  {
    hide Relay, Relays, RelaysLength, HashRelay, Derived, Index, Suite.AgreementLaws;
    var p, j := 0, 0;
    var last: Option<bytes> := None;
    ghost var whole := Relays(s, xor, iv, keys, coins, None);
    assert keys[0..] == keys && coins[0..] == coins;
    assert relays[..0] == [] && [] + whole == whole;
    while j < |keys| - 1
      invariant 0 <= j < |keys| && 0 <= p && p + RelaysLength(keys[j..]) == relays.Length
      invariant relays[..p] + Relays(s, xor, iv, keys[j..], coins[j..], last) == whole
    {
      RelaysFrom(s, xor, iv, keys, coins, last, j);
      ghost var key := Derived(s, keys[j], coins[j]);
      Regroup(relays[..p], Relay(s, xor, iv, keys[j], coins[j], last), HashRelay(s, iv, key, keys[j + 1]),
              Relays(s, xor, iv, keys[j + 1..], coins[j + 1..], Some(key)));
      nfsKey := WriteRelayAndHash(relays, p, s, xor, iv, keys[j], coins[j], last, keys[j + 1]);
      last := Some(nfsKey);
      p := p + Index(keys[j]) + 32;
      j := j + 1;
    }
    RelaysFrom(s, xor, iv, keys, coins, last, j);
    nfsKey := WriteLastRelay(relays, p, s, xor, iv, keys[j], coins[j], last);
  }

  lemma Regroup(a: bytes, b: bytes, c: bytes, d: bytes)
    ensures a + (b + (c + d)) == ((a + b) + c) + d
  {
    Assoc(a, b, c + d);
    Assoc(a + b, c, d);
  }

  /** The two XORs that recover one relay. */
  method UnmaskInPlace(relays: array<byte>, p: nat, s: Suite, xor: bool, iv: bytes, k: NfsKey, last: Option<bytes>)
    requires p + Index(k) <= relays.Length
    modifies relays
    ensures relays[p..p + Index(k)] == Unmasked(s, xor, iv, k, old(relays[p..p + Index(k)]), last)
    ensures relays[p + Index(k)..] == old(relays[p + Index(k)..])
  {
    hide XorFront, XorStream;
    if last.Some? {
      XorSlice(relays, p, 32, Index(k), Ctr(s, last.value, iv), 32);
    }
    if xor {
      XorSlice(relays, p, Index(k), Index(k), Ctr(s, Public(s, k), iv), 0);
    }
  }

  /** The hash between two relays, recovered in place and compared. */
  method CheckHash(relays: array<byte>, p: nat, s: Suite, iv: bytes, key: bytes, expected: bytes) returns (ok: bool)
    requires p + 32 <= relays.Length
    modifies relays
    ensures ok == (XorStream(Ctr(s, key, iv), 0, old(relays[p..p + 32])) == expected)
    ensures relays[p + 32..] == old(relays[p + 32..])
  {
    hide XorStream;
    WholeFront(Ctr(s, key, iv), relays[p..p + 32]);
    XorSlice(relays, p, 32, 32, Ctr(s, key, iv), 0);
    ok := relays[p..p + 32] == expected;
  }

  /** The server's loop from relay j on, one relay unfolded. */
  lemma OpenFrom(s: Suite, xor: bool, iv: bytes, keys: seq<NfsKey>, left: bytes, last: Option<bytes>, j: nat)
    requires j < |keys| && |left| == RelaysLength(keys[j..])
    ensures RelaysLength(keys[j..]) == Index(keys[j]) + if j + 1 == |keys| then 0 else 32 + RelaysLength(keys[j + 1..])
    ensures var n := Index(keys[j]);
            var key := Recovered(s, keys[j], Unmasked(s, xor, iv, keys[j], left[..n], last));
            OpenRelays(s, xor, iv, keys[j..], left, last) ==
            if key.None? || j + 1 == |keys| then key
            else if XorStream(Ctr(s, key.value, iv), 0, left[n..n + 32]) != s.hash32(Public(s, keys[j + 1])) then None
            else OpenRelays(s, xor, iv, keys[j + 1..], left[n + 32..], key)
  {
    hide Recovered, Unmasked, XorStream, Public;
    if j + 1 < |keys| {
      assert keys[j..][1..] == keys[j + 1..];
    }
  }

  /** The server's loop, which recovers the relays in place. */
  method OpenInPlace(relays: array<byte>, s: Suite, xor: bool, iv: bytes, keys: seq<NfsKey>) returns (nfsKey: Option<bytes>)
    requires keys != [] && relays.Length == RelaysLength(keys)
    modifies relays
    ensures nfsKey == OpenRelays(s, xor, iv, keys, old(relays[..]), None)
  {
    hide XorStream, Recovered, Unmasked, Public, OpenRelays, RelaysLength;
    var p, j := 0, 0;
    var last: Option<bytes> := None;
    ghost var whole := relays[..];
    assert keys[0..] == keys && whole[0..] == whole && relays[0..] == whole;
    while true
      invariant 0 <= j < |keys| && 0 <= p && p + RelaysLength(keys[j..]) == relays.Length
      invariant relays[p..] == whole[p..]
      invariant OpenRelays(s, xor, iv, keys, whole, None) == OpenRelays(s, xor, iv, keys[j..], whole[p..], last)
      decreases |keys| - j
    {
      var n := Index(keys[j]);
      ghost var left := whole[p..];
      OpenFrom(s, xor, iv, keys, left, last, j);
      assert left[..n] == relays[p..p + n] by { assert relays[p..p + n] == relays[p..][..n]; }
      assert relays[p + n..] == left[n..] by { assert relays[p + n..] == relays[p..][n..]; }
      UnmaskInPlace(relays, p, s, xor, iv, keys[j], last);
      nfsKey := Recovered(s, keys[j], relays[p..p + n]);
      if nfsKey.None? || j == |keys| - 1 {
        return;
      }
      p := p + n;
      assert relays[p..p + 32] == left[n..n + 32] by { assert relays[p..p + 32] == relays[p..][..32]; }
      assert relays[p + 32..] == left[n + 32..] by { assert relays[p + 32..] == relays[p..][32..]; }
      var ok := CheckHash(relays, p, s, iv, nfsKey.value, s.hash32(Public(s, keys[j + 1])));
      if !ok {
        return None;
      }
      p := p + 32;
      assert whole[p..] == left[n + 32..];
      last := nfsKey;
      j := j + 1;
    }
  }

  lemma WholeFront(ks: nat -> byte, b: bytes)
    ensures XorFront(ks, 0, |b|, b) == XorStream(ks, 0, b)
  {
    assert b[..|b|] == b && b[|b|..] == [];
    NilRight(XorStream(ks, 0, b));
  }
}
