/** The cryptographic primitives of the VLESS encryption layer, as functions, with the laws the code relies on. */
module EncryptionSuite {
  import opened Bytes
  import opened Options

  /**
   * kdf is blake3.DeriveKey(context, key); seal and open are the two AEADs (AES-256-GCM when the first argument is true,
   * else ChaCha20-Poly1305) on key, nonce, text and additional data; stream is the AES-CTR keystream of NewCTR(key, iv),
   * byte by byte; hash32 is blake3.Sum256. dh is X25519, kem is ML-KEM-768 with explicit coins.
   */
  datatype Suite = Suite(
    kdf: (bytes, bytes) -> bytes,
    seal: (bool, bytes, bytes, bytes, bytes) -> bytes,
    open: (bool, bytes, bytes, bytes, bytes) -> Option<bytes>,
    stream: (bytes, bytes, nat) -> byte,
    hash32: bytes -> bytes,
    dhPublic: bytes -> bytes,
    dhShared: (bytes, bytes) -> Option<bytes>,
    kemPublic: bytes -> bytes,
    kemShared: (bytes, bytes) -> bytes,
    kemCiphertext: (bytes, bytes) -> bytes,
    kemOpen: (bytes, bytes) -> Option<bytes>)
  {
    /** Open undoes Seal, a sealed text is 16 bytes longer, and the other AEAD refuses it. */
    ghost predicate SealLaws() {
      && (forall a, k, n, p, d :: |seal(a, k, n, p, d)| == |p| + 16)
      && (forall a, k, n, p, d :: open(a, k, n, seal(a, k, n, p, d), d) == Some(p))
      && (forall a, k, n, p, d :: open(!a, k, n, seal(a, k, n, p, d), d).None?)
    }

    /** Key agreement: both sides derive the same 32 bytes; an honest X25519 public key has its highest bit clear. */
    ghost predicate AgreementLaws() {
      && (forall x :: |hash32(x)| == 32)
      && (forall s :: |dhPublic(s)| == 32 && dhPublic(s)[31] <= 127)
      && (forall s, t :: dhShared(s, dhPublic(t)) == dhShared(t, dhPublic(s)))
      && (forall s, t :: dhShared(s, dhPublic(t)).Some? && |dhShared(s, dhPublic(t)).value| == 32)
      && (forall s :: |kemPublic(s)| == 1184)
      && (forall p, r :: |kemShared(p, r)| == 32 && |kemCiphertext(p, r)| == 1088)
      && (forall s, r :: kemOpen(s, kemCiphertext(kemPublic(s), r)) == Some(kemShared(kemPublic(s), r)))
    }
  }

  /** The laws are consistent: these (useless) primitives satisfy them all. */
  lemma LawsAreConsistent()
    ensures exists s: Suite :: s.SealLaws() && s.AgreementLaws()
  {
    var s := Suite(
      (c, k) => Zeros(32),
      (a, k, n, p, d) => p + [if a then 1 else 0] + Zeros(15),
      (a, k, n, c, d) => if |c| >= 16 && c[|c| - 16] == (if a then 1 else 0) then Some(c[..|c| - 16]) else None,
      (k, iv, i) => 0,
      x => Zeros(32),
      x => Zeros(32),
      (x, y) => Some(Zeros(32)),
      x => Zeros(1184),
      (p, r) => Zeros(32),
      (p, r) => Zeros(1088),
      (x, c) => Some(Zeros(32)));
    forall a, k, n, p, d ensures
        && |s.seal(a, k, n, p, d)| == |p| + 16
        && s.open(a, k, n, s.seal(a, k, n, p, d), d) == Some(p)
        && s.open(!a, k, n, s.seal(a, k, n, p, d), d).None?
    {
      var c := s.seal(a, k, n, p, d);
      assert c[..|c| - 16] == p;
    }
    assert s.SealLaws();
    assert s.AgreementLaws();
  }

  /** XORKeyStream: the bytes b against the keystream ks from position pos on. */
  function XorStream(ks: nat -> byte, pos: nat, b: bytes): (r: bytes)
    ensures |r| == |b|
  {
    seq(|b|, i requires 0 <= i < |b| => Xor(b[i], ks(pos + i)))
  }

  lemma XorStreamUndoes(ks: nat -> byte, pos: nat, b: bytes)
    ensures XorStream(ks, pos, XorStream(ks, pos, b)) == b
  {
    forall i | 0 <= i < |b| ensures XorStream(ks, pos, XorStream(ks, pos, b))[i] == b[i] {
      XorUndoes(b[i], ks(pos + i));
    }
  }

  /** XORKeyStream on a slice, in place. */
  method XorInPlace(a: array<byte>, lo: nat, n: nat, ks: nat -> byte, pos: nat)
    requires lo + n <= a.Length
    modifies a
    ensures a[..] == old(a[..lo]) + XorStream(ks, pos, old(a[lo..lo + n])) + old(a[lo + n..])
  {
    var i := 0;
    while i < n
      invariant 0 <= i <= n
      invariant forall k :: 0 <= k < a.Length ==>
                  a[k] == if lo <= k < lo + i then Xor(old(a[k]), ks(pos + (k - lo))) else old(a[k])
    {
      a[lo + i] := Xor(a[lo + i], ks(pos + i));
      i := i + 1;
    }
    forall k | 0 <= k < a.Length
      ensures a[..][k] == (old(a[..lo]) + XorStream(ks, pos, old(a[lo..lo + n])) + old(a[lo + n..]))[k]
    {
    }
  }
}
