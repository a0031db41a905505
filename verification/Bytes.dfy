/** Byte strings: big-endian lengths, concatenation of chunk lists, and the XOR of a byte with a keystream byte. */
module Bytes {
  type byte = x: int | 0 <= x < 256
  type bytes = seq<byte>

  /** The capacity of a regular buffer. */
  const SIZE: nat := 8192

  /** `byte(n >> 8)` for a non-negative integer. */
  function Hi(n: nat): byte {
    (n / 256) % 256
  }

  /** `byte(n)` for a non-negative integer. */
  function Lo(n: nat): byte {
    n % 256
  }

  /** `int(hi) << 8 | int(lo)`. */
  function U16(hi: byte, lo: byte): (n: nat)
    ensures n < 0x1_0000
  {
    hi * 256 + lo
  }

  /** Two big-endian bytes hold every 16-bit length. */
  lemma U16RoundTrip(n: nat)
    requires n < 0x1_0000
    ensures U16(Hi(n), Lo(n)) == n
  {
    assert n / 256 < 256;
  }

  lemma U16Bytes(hi: byte, lo: byte)
    ensures Hi(U16(hi, lo)) == hi && Lo(U16(hi, lo)) == lo
  {
    assert (hi * 256 + lo) / 256 == hi;
  }

  /** The bytes of a list of chunks, in order. */
  function Concat(chunks: seq<bytes>): bytes {
    if chunks == [] then [] else chunks[0] + Concat(chunks[1..])
  }

  lemma {:induction false} ConcatAppend(a: seq<bytes>, b: seq<bytes>)
    ensures Concat(a + b) == Concat(a) + Concat(b)
  {
    if a == [] {
      assert a + b == b;
    } else {
      ConcatAppend(a[1..], b);
      assert (a + b)[1..] == a[1..] + b;
      Assoc(a[0], Concat(a[1..]), Concat(b));
    }
  }

  lemma ConcatSnoc(a: seq<bytes>, x: bytes)
    ensures Concat(a + [x]) == Concat(a) + x
  {
    ConcatAppend(a, [x]);
    assert Concat([x]) == x + Concat([]);
  }

  /** Bytes cut into pieces of at most one buffer's size. */
  function Chunked(b: bytes): (r: seq<bytes>)
    ensures Concat(r) == b && GoodChunks(r)
    decreases |b|
  {
    if b == [] then []
    else
      var n := if |b| > SIZE then SIZE else |b|;
      var rest := Chunked(b[n..]);
      assert ([b[..n]] + rest)[1..] == rest;
      assert b == b[..n] + b[n..];
      [b[..n]] + rest
  }

  predicate GoodChunks(chunks: seq<bytes>) {
    forall i :: 0 <= i < |chunks| ==> 0 < |chunks[i]| <= SIZE
  }

  /** Two ways of cutting the same bytes in two: the shorter front is a prefix of the longer one. */
  lemma SplitTwice(a: bytes, b: bytes, c: bytes, d: bytes)
    requires a + b == c + d && |c| <= |a|
    ensures c == a[..|c|] && d == a[|c|..] + b
  {
    assert (a + b)[..|c|] == a[..|c|] && (c + d)[..|c|] == c;
    assert (a + b)[|c|..] == a[|c|..] + b && (c + d)[|c|..] == d;
  }

  lemma Assoc<T>(a: seq<T>, b: seq<T>, c: seq<T>)
    ensures (a + b) + c == a + (b + c)
  {
  }

  lemma NilRight<T>(a: seq<T>)
    ensures a + [] == a
  {
  }

  lemma CancelFront(a: bytes, b: bytes, c: bytes)
    ensures a + b == a + c <==> b == c
  {
    if a + b == a + c {
      assert (a + b)[|a|..] == b && (a + c)[|a|..] == c;
    }
  }

  /** n zero bytes. */
  function Zeros(n: nat): (z: bytes)
    ensures |z| == n
    ensures forall i :: 0 <= i < n ==> z[i] == 0
  {
    seq(n, i => 0)
  }

  function Pow2(n: nat): nat {
    if n == 0 then 1 else 2 * Pow2(n - 1)
  }

  /** Bitwise exclusive or of the low n bits. */
  function XorBits(a: nat, k: nat, n: nat): (r: nat)
    ensures r < Pow2(n)
  {
    if n == 0 then 0 else (if a % 2 == k % 2 then 0 else 1) + 2 * XorBits(a / 2, k / 2, n - 1)
  }

  lemma {:induction false} XorBitsUndoes(a: nat, k: nat, n: nat)
    requires a < Pow2(n)
    ensures XorBits(XorBits(a, k, n), k, n) == a
  {
    if n > 0 {
      var h, c := a / 2, k / 2;
      var rest := XorBits(h, c, n - 1);
      var low := if a % 2 == k % 2 then 0 else 1;
      XorBitsUndoes(h, c, n - 1);
      var x := low + 2 * rest;
      assert XorBits(a, k, n) == x;
      assert x % 2 == low && x / 2 == rest;
      assert XorBits(x, k, n) == (if low == k % 2 then 0 else 1) + 2 * h;
    }
  }

  lemma Pow2Of8()
    ensures Pow2(8) == 256
  {
    assert Pow2(4) == 16;
    assert Pow2(6) == 64;
  }

  function Xor(a: byte, k: byte): byte {
    Pow2Of8();
    XorBits(a, k, 8)
  }

  /** XOR with the same keystream byte undoes itself. */
  lemma XorUndoes(a: byte, k: byte)
    ensures Xor(Xor(a, k), k) == a
  {
    Pow2Of8();
    XorBitsUndoes(a, k, 8);
  }
}
