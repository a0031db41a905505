/** XorConn: only the five-byte record headers are masked; both ends follow the headers to know where the next one is. */
module EncryptionXor {
  import opened Bytes
  import opened Options
  import opened EncryptionSuite

  /** DecodeHeader's length: zero unless the three type and version bytes are right; not checked for its range here. */
  function HeaderLength(h: bytes): (n: nat)
    requires |h| == 5
    ensures n < 0x1_0000
  {
    if h[0] != 23 || h[1] != 3 || h[2] != 3 then 0 else U16(h[3], h[4])
  }

  /** One direction of a connection: bytes still to skip, the header bytes seen, and the keystream position. */
  datatype Half = Half(skip: nat, header: bytes, pos: nat) {
    predicate Valid() {
      |header| <= 4
    }

    /** The state after one more plain byte. */
    function Next(plain: byte): (h: Half)
      requires Valid()
      ensures h.Valid()
    {
      if skip > 0 then Half(skip - 1, header, pos)
      else if |header| == 4 then Half(HeaderLength(header + [plain]), [], pos + 1)
      else Half(0, header + [plain], pos + 1)
    }

    /** What is put on the wire for a plain byte, and back: the keystream byte is XORed onto header bytes only. */
    function Flip(ks: nat -> byte, b: byte): byte {
      if skip > 0 then b else Xor(b, ks(pos))
    }
  }

  /** Reference: the bytes of a write, one at a time. */
  function Mask(ks: nat -> byte, h: Half, plain: bytes): (r: bytes)
    requires h.Valid()
    ensures |r| == |plain|
    decreases |plain|
  {
    if plain == [] then [] else [h.Flip(ks, plain[0])] + Mask(ks, h.Next(plain[0]), plain[1..])
  }

  function AfterMask(h: Half, plain: bytes): (r: Half)
    requires h.Valid()
    ensures r.Valid()
    decreases |plain|
  {
    if plain == [] then h else AfterMask(h.Next(plain[0]), plain[1..])
  }

  /** Reference: the bytes of a read, one at a time; the state follows the recovered bytes. */
  function Unmask(ks: nat -> byte, h: Half, wire: bytes): (r: bytes)
    requires h.Valid()
    ensures |r| == |wire|
    decreases |wire|
  {
    if wire == [] then []
    else var p := h.Flip(ks, wire[0]); [p] + Unmask(ks, h.Next(p), wire[1..])
  }

  /** A reader that starts in the writer's state recovers the exact bytes. */
  lemma {:induction false} UnmaskMask(ks: nat -> byte, h: Half, plain: bytes)
    requires h.Valid()
    ensures Unmask(ks, h, Mask(ks, h, plain)) == plain
    decreases |plain|
  {
    if plain != [] {
      var w := Mask(ks, h, plain);
      XorUndoes(plain[0], ks(h.pos));
      assert h.Flip(ks, w[0]) == plain[0];
      assert w[1..] == Mask(ks, h.Next(plain[0]), plain[1..]);
      UnmaskMask(ks, h.Next(plain[0]), plain[1..]);
      assert plain == [plain[0]] + plain[1..];
    }
  }

  lemma {:induction false} MaskAppend(ks: nat -> byte, h: Half, a: bytes, b: bytes)
    requires h.Valid()
    ensures Mask(ks, h, a + b) == Mask(ks, h, a) + Mask(ks, AfterMask(h, a), b)
    ensures AfterMask(h, a + b) == AfterMask(AfterMask(h, a), b)
    decreases |a|
  {
    if a == [] {
      assert a + b == b;
    } else {
      assert (a + b)[1..] == a[1..] + b;
      MaskAppend(ks, h.Next(a[0]), a[1..], b);
      Assoc([h.Flip(ks, a[0])], Mask(ks, h.Next(a[0]), a[1..]), Mask(ks, AfterMask(h, a), b));
    }
  }

  lemma {:induction false} UnmaskAppend(ks: nat -> byte, h: Half, a: bytes, b: bytes)
    requires h.Valid()
    ensures Unmask(ks, h, a + b) == Unmask(ks, h, a) + Unmask(ks, AfterMask(h, Unmask(ks, h, a)), b)
    ensures AfterMask(h, Unmask(ks, h, a + b)) == AfterMask(AfterMask(h, Unmask(ks, h, a)), Unmask(ks, AfterMask(h, Unmask(ks, h, a)), b))
    decreases |a|
  {
    if a == [] {
      assert a + b == b;
    } else {
      var p := h.Flip(ks, a[0]);
      assert (a + b)[1..] == a[1..] + b && (a + b)[0] == a[0];
      UnmaskAppend(ks, h.Next(p), a[1..], b);
      var u := Unmask(ks, h.Next(p), a[1..]);
      assert Unmask(ks, h, a) == [p] + u && ([p] + u)[1..] == u;
      assert AfterMask(h, [p] + u) == AfterMask(h.Next(p), u);
      var v := Unmask(ks, AfterMask(h.Next(p), u), b);
      Assoc([p], u, v);
      assert ([p] + (u + v))[1..] == u + v;
    }
  }

  /** What a sequence of writes puts on the wire. */
  function MaskAll(ks: nat -> byte, h: Half, writes: seq<bytes>): bytes
    requires h.Valid()
    decreases |writes|
  {
    if writes == [] then [] else Mask(ks, h, writes[0]) + MaskAll(ks, AfterMask(h, writes[0]), writes[1..])
  }

  /** What a sequence of reads, each getting the next fragment of the wire, returns. */
  function UnmaskAll(ks: nat -> byte, h: Half, fragments: seq<bytes>): bytes
    requires h.Valid()
    decreases |fragments|
  {
    if fragments == [] then []
    else
      var u := Unmask(ks, h, fragments[0]);
      u + UnmaskAll(ks, AfterMask(h, u), fragments[1..])
  }

  lemma {:induction false} MaskAllConcat(ks: nat -> byte, h: Half, writes: seq<bytes>)
    requires h.Valid()
    ensures MaskAll(ks, h, writes) == Mask(ks, h, Concat(writes))
    decreases |writes|
  {
    if writes != [] {
      MaskAppend(ks, h, writes[0], Concat(writes[1..]));
      MaskAllConcat(ks, AfterMask(h, writes[0]), writes[1..]);
    }
  }

  lemma {:induction false} UnmaskAllConcat(ks: nat -> byte, h: Half, fragments: seq<bytes>)
    requires h.Valid()
    ensures UnmaskAll(ks, h, fragments) == Unmask(ks, h, Concat(fragments))
    decreases |fragments|
  {
    if fragments != [] {
      UnmaskAppend(ks, h, fragments[0], Concat(fragments[1..]));
      UnmaskAllConcat(ks, AfterMask(h, Unmask(ks, h, fragments[0])), fragments[1..]);
    }
  }

  /** Any split of the writes, any fragmentation of the reads: the exact bytes are recovered. */
  lemma XorRoundTrip(ks: nat -> byte, h: Half, writes: seq<bytes>, fragments: seq<bytes>)
    requires h.Valid() && Concat(fragments) == MaskAll(ks, h, writes)
    ensures UnmaskAll(ks, h, fragments) == Concat(writes)
  {
    MaskAllConcat(ks, h, writes);
    UnmaskAllConcat(ks, h, fragments);
    UnmaskMask(ks, h, Concat(writes));
  }

  // ---- Runs of bytes, as the loops take them ----

  /** Bytes inside a record body pass through. */
  lemma {:induction false} MaskSkipped(ks: nat -> byte, h: Half, b: bytes)
    requires h.Valid() && |b| <= h.skip
    ensures Mask(ks, h, b) == b && Unmask(ks, h, b) == b && AfterMask(h, b) == h.(skip := h.skip - |b|)
    decreases |b|
  {
    if b != [] {
      MaskSkipped(ks, h.Next(b[0]), b[1..]);
      assert b == [b[0]] + b[1..];
    }
  }

  lemma XorStreamTail(ks: nat -> byte, pos: nat, b: bytes)
    requires b != []
    ensures XorStream(ks, pos, b) == [Xor(b[0], ks(pos))] + XorStream(ks, pos + 1, b[1..])
  {
    var x, y := XorStream(ks, pos, b), XorStream(ks, pos + 1, b[1..]);
    forall i | 0 <= i < |y| ensures x[1..][i] == y[i] {
      assert ks(pos + (i + 1)) == ks(pos + 1 + i);
    }
    assert x[1..] == y;
    assert x == [x[0]] + x[1..];
  }

  /** Up to the end of a header: XORed as one piece. */
  lemma {:induction false} MaskHeader(ks: nat -> byte, h: Half, b: bytes)
    requires h.Valid() && h.skip == 0 && |h.header| + |b| <= 5
    ensures Mask(ks, h, b) == XorStream(ks, h.pos, b)
    ensures AfterMask(h, b) == if |h.header| + |b| < 5 then Half(0, h.header + b, h.pos + |b|)
                               else Half(HeaderLength(h.header + b), [], h.pos + |b|)
    decreases |b|
  {
    hide XorStream, Xor, HeaderLength;
    if b == [] {
      NilRight(h.header);
    } else {
      var n, rest := h.Next(b[0]), b[1..];
      XorStreamTail(ks, h.pos, b);
      assert b == [b[0]] + rest;
      Assoc(h.header, [b[0]], rest);
      if |h.header| == 4 {
        assert rest == [];
        NilRight(h.header + [b[0]]);
      } else {
        MaskHeader(ks, n, rest);
      }
    }
  }

  lemma UnmaskHeader(ks: nat -> byte, h: Half, w: bytes)
    requires h.Valid() && h.skip == 0 && |h.header| + |w| <= 5
    ensures Unmask(ks, h, w) == XorStream(ks, h.pos, w)
  {
    var p := XorStream(ks, h.pos, w);
    MaskHeader(ks, h, p);
    XorStreamUndoes(ks, h.pos, w);
    UnmaskMask(ks, h, p);
  }

  /** Positions p..q of a write: what the reference mask has there, and how it goes on. */
  lemma MaskPart(ks: nat -> byte, h: Half, plain: bytes, m: bytes, p: nat, q: nat)
    requires h.Valid() && p <= q <= |plain| == |m| && m[p..] == Mask(ks, h, plain[p..])
    ensures m[p..q] == Mask(ks, h, plain[p..q])
    ensures m[q..] == Mask(ks, AfterMask(h, plain[p..q]), plain[q..])
    ensures AfterMask(h, plain[p..]) == AfterMask(AfterMask(h, plain[p..q]), plain[q..])
  {
    hide Mask, AfterMask;
    assert plain[p..] == plain[p..q] + plain[q..];
    MaskAppend(ks, h, plain[p..q], plain[q..]);
    assert m[p..q] == m[p..][..q - p] && m[q..] == m[p..][q - p..];
  }

  /** Positions p..q of a read: what the reference recovers there, and how it goes on. */
  lemma UnmaskPart(ks: nat -> byte, h: Half, wire: bytes, u: bytes, p: nat, q: nat)
    requires h.Valid() && p <= q <= |wire| == |u| && u[p..] == Unmask(ks, h, wire[p..])
    ensures u[p..q] == Unmask(ks, h, wire[p..q])
    ensures u[q..] == Unmask(ks, AfterMask(h, u[p..q]), wire[q..])
    ensures AfterMask(h, u[p..]) == AfterMask(AfterMask(h, u[p..q]), u[q..])
  {
    hide Unmask, AfterMask;
    assert wire[p..] == wire[p..q] + wire[q..];
    UnmaskAppend(ks, h, wire[p..q], wire[q..]);
    assert u[p..q] == u[p..][..q - p] && u[q..] == u[p..][q - p..];
  }

  /** One loop turn from position p on: the bytes to skip end at q, the header bytes at hand end at r. */
  function SkipEnd(h: Half, len: nat, p: nat): nat {
    if len - p <= h.skip then len else p + h.skip
  }

  function HeaderEnd(h: Half, len: nat, q: nat): int {
    if len - q < 5 - |h.header| then len else q + (5 - |h.header|)
  }

  /** The state behind the header bytes seen, of which `at hand` are new. */
  function AfterHeader(h: Half, atHand: bytes): (r: Half)
    requires h.Valid() && |h.header| + |atHand| <= 5
    ensures r.Valid()
  {
    var seen := h.header + atHand;
    if |seen| < 5 then Half(0, seen, h.pos + |atHand|) else Half(HeaderLength(seen), [], h.pos + |atHand|)
  }

  lemma AfterMaskNil(h: Half)
    requires h.Valid()
    ensures AfterMask(h, []) == h
  {
  }

  lemma WriteTurn(ks: nat -> byte, h: Half, plain: bytes, m: bytes, p: nat, q: nat, r: nat)
    requires h.Valid() && p <= |plain| == |m| && h.skip < |plain| - p && m[p..] == Mask(ks, h, plain[p..])
    requires q == SkipEnd(h, |plain|, p) && r == HeaderEnd(h, |plain|, q)
    ensures p <= q < r <= |plain| && |h.header| + (r - q) <= 5
    ensures m[p..q] == plain[p..q] && m[q..r] == XorStream(ks, h.pos, plain[q..r])
    ensures m[r..] == Mask(ks, AfterHeader(h, plain[q..r]), plain[r..])
    ensures AfterMask(h, plain[p..]) == AfterMask(AfterHeader(h, plain[q..r]), plain[r..])
    ensures r == |plain| ==> AfterMask(h, plain[p..]) == AfterHeader(h, plain[q..r])
  {
    hide Mask, AfterMask, XorStream, HeaderLength;
    MaskPart(ks, h, plain, m, p, q);
    MaskSkipped(ks, h, plain[p..q]);
    var h1 := h.(skip := 0);
    AfterMaskNil(AfterHeader(h, plain[q..r]));
    MaskPart(ks, h1, plain, m, q, r);
    MaskHeader(ks, h1, plain[q..r]);
    assert AfterMask(h1, plain[q..r]) == AfterHeader(h, plain[q..r]);
    assert r == |plain| ==> plain[r..] == [];
  }

  lemma ReadTurn(ks: nat -> byte, h: Half, wire: bytes, u: bytes, p: nat, q: nat, r: nat)
    requires h.Valid() && p <= |wire| == |u| && h.skip < |wire| - p && u[p..] == Unmask(ks, h, wire[p..])
    requires q == SkipEnd(h, |wire|, p) && r == HeaderEnd(h, |wire|, q)
    ensures p <= q < r <= |wire| && |h.header| + (r - q) <= 5
    ensures u[p..q] == wire[p..q] && u[q..r] == XorStream(ks, h.pos, wire[q..r])
    ensures u[r..] == Unmask(ks, AfterHeader(h, u[q..r]), wire[r..])
    ensures AfterMask(h, u[p..]) == AfterMask(AfterHeader(h, u[q..r]), u[r..])
    ensures r == |wire| ==> AfterMask(h, u[p..]) == AfterHeader(h, u[q..r])
  {
    hide Mask, Unmask, AfterMask, XorStream, HeaderLength;
    UnmaskPart(ks, h, wire, u, p, q);
    MaskSkipped(ks, h, wire[p..q]);
    var h1 := h.(skip := 0);
    AfterMaskNil(AfterHeader(h, u[q..r]));
    UnmaskPart(ks, h1, wire, u, q, r);
    UnmaskHeader(ks, h1, wire[q..r]);
    MaskHeader(ks, h1, u[q..r]);
    assert AfterMask(h1, u[q..r]) == AfterHeader(h, u[q..r]);
    assert r == |u| ==> u[r..] == [];
  }

  /** The in-place work of one turn: positions up to p hold the target, and then positions up to r do. */
  method TurnInPlace(b: array<byte>, ghost p: nat, q: nat, r: nat, ks: nat -> byte, pos: nat, ghost target: bytes, ghost source: bytes)
    requires p <= q <= r <= b.Length == |target| == |source|
    requires b[..] == target[..p] + source[p..]
    requires target[p..q] == source[p..q] && target[q..r] == XorStream(ks, pos, source[q..r])
    modifies b
    ensures b[..] == target[..r] + source[r..]
  {
    assert target[..p] + source[p..] == target[..q] + source[q..] by {
      assert target[..q] == target[..p] + target[p..q];
      assert source[p..] == source[p..q] + source[q..];
      Assoc(target[..p], source[p..q], source[q..]);
    }
    assert b[..q] == target[..q] && b[q..r] == source[q..r] && b[r..] == source[r..];
    XorInPlace(b, q, r - q, ks, pos);
    assert target[..r] == target[..q] + target[q..r];
  }

  // ---- The connection ----

  class XorConn {
    const ctr: nat -> byte
    /** nil on a 0-RTT client until the server's random bytes have arrived. */
    var peerCtr: Option<nat -> byte>
    var out: Half
    var inn: Half

    ghost predicate Valid()
      reads this
    {
      out.Valid() && inn.Valid()
    }

    constructor (ctr: nat -> byte, peerCtr: Option<nat -> byte>, outSkip: nat, inSkip: nat)
      ensures Valid() && this.ctr == ctr && this.peerCtr == peerCtr
      ensures out == Half(outSkip, [], 0) && inn == Half(inSkip, [], 0)
    {
      this.ctr, this.peerCtr := ctr, peerCtr;
      out, inn := Half(outSkip, [], 0), Half(inSkip, [], 0);
    }

    /** Write masks its argument in place: what goes to the connection is the reference mask of what was given. */
    method Write(b: array<byte>)
      requires Valid()
      modifies this`out, b
      ensures Valid()
      ensures b[..] == Mask(ctr, old(out), old(b[..]))
      ensures out == AfterMask(old(out), old(b[..]))
    {
      hide Mask, AfterMask, AfterHeader;
      ghost var plain, h0 := b[..], out;
      ghost var m := Mask(ctr, h0, plain);
      var p := 0;
      ReadStart(m, plain, plain, m);
      while out.skip < b.Length - p
        invariant 0 <= p <= b.Length && Valid()
        invariant b[..] == m[..p] + plain[p..]
        invariant m[p..] == Mask(ctr, out, plain[p..])
        invariant AfterMask(out, plain[p..]) == AfterMask(h0, plain)
        decreases b.Length - p
      {
        var q := SkipEnd(out, b.Length, p);
        var r := HeaderEnd(out, b.Length, q);
        WriteTurn(ctr, out, plain, m, p, q, r);
        var atHand: bytes := b[q..r];
        assert atHand == plain[q..r] by { Untouched(b[..], m, plain, p, q, r); }
        TurnInPlace(b, p, q, r, ctr, out.pos, m, plain);
        out := AfterHeader(out, atHand);
        p := r;
      }
      MaskSkipped(ctr, out, plain[p..]);
      out := out.(skip := out.skip - (b.Length - p));
      assert m == m[..p] + m[p..] && m[p..] == plain[p..];
    }

    /**
     * Read unmasks the n bytes the connection delivered, in place. The peer keystream is touched only behind the bytes
     * to skip, so it may still be nil while no more than those arrive.
     */
    method Read(b: array<byte>, n: nat)
      requires Valid() && n <= b.Length
      requires peerCtr.Some? || n <= inn.skip
      modifies this`inn, b
      ensures Valid()
      ensures peerCtr.Some? ==>
                && b[..n] == Unmask(peerCtr.value, old(inn), old(b[..n]))
                && inn == AfterMask(old(inn), b[..n])
      ensures peerCtr.None? ==> b[..n] == old(b[..n]) && inn == old(inn).(skip := old(inn).skip - n)
      ensures b[n..] == old(b[n..])
    {
      hide Unmask, AfterMask, AfterHeader;
      if peerCtr.None? {
        inn := inn.(skip := inn.skip - n);
        return;
      }
      var ks := peerCtr.value;
      ghost var source, h0 := b[..], inn;
      ghost var wire, tail := b[..n], b[n..];
      ghost var u := Unmask(ks, h0, wire);
      ghost var target := u + tail;
      var p := 0;
      assert source == wire + tail;
      ReadStart(u, wire, source, target);
      while inn.skip < n - p
        invariant 0 <= p <= n && Valid()
        invariant b[..] == target[..p] + source[p..]
        invariant u[p..] == Unmask(ks, inn, wire[p..])
        invariant AfterMask(inn, u[p..]) == AfterMask(h0, u)
        decreases n - p
      {
        var q := SkipEnd(inn, n, p);
        var r := HeaderEnd(inn, n, q);
        ReadTurn(ks, inn, wire, u, p, q, r);
        Prefixes(u, wire, tail, p, q, r);
        TurnInPlace(b, p, q, r, ks, inn.pos, target, source);
        var atHand: bytes := b[q..r];
        assert atHand == u[q..r] by { Finished(b[..], target, source, q, r); }
        inn := AfterHeader(inn, atHand);
        p := r;
      }
      MaskSkipped(ks, inn, wire[p..]);
      ReadEnd(b[..], u, wire, tail, p);
      inn := inn.(skip := inn.skip - (n - p));
    }

    /**
     * The 0-RTT client reads the server's 16 random bytes through the connection, however they are fragmented, while its
     * peer keystream is still nil: the 16 bytes to skip cover them exactly, and the first header comes next.
     */
    method ReadServerRandom(fragments: seq<bytes>) returns (random: array<byte>)
      requires Valid() && peerCtr.None? && inn == Half(16, [], 0) && |Concat(fragments)| == 16
      modifies this`inn
      ensures Valid() && fresh(random) && random[..] == Concat(fragments) && inn == Half(0, [], 0)
    {
      random := new byte[16](i => 0);
      var got := 0;
      var i := 0;
      while i < |fragments|
        invariant 0 <= i <= |fragments| && 0 <= got <= 16 && Valid()
        invariant got + |Concat(fragments[i..])| == 16
        invariant random[..got] + Concat(fragments[i..]) == Concat(fragments)
        invariant inn == Half(16 - got, [], 0)
      {
        var f := fragments[i];
        assert fragments[i..][1..] == fragments[i + 1..];
        var part := new byte[|f|](k requires 0 <= k < |f| => f[k]);
        assert part[..] == f;
        Read(part, |f|);
        assert part[..] == f by { assert part[..|f|] == part[..]; }
        ghost var before := random[..got];
        forall k | 0 <= k < |f| {
          random[got + k] := part[k];
        }
        assert random[..got + |f|] == before + f;
        Assoc(before, f, Concat(fragments[i + 1..]));
        got := got + |f|;
        i := i + 1;
      }
      assert fragments[i..] == [];
      assert random[..got] == random[..];
    }
  }

  lemma Untouched(b: bytes, target: bytes, source: bytes, p: nat, q: nat, r: nat)
    requires p <= q <= r <= |target| == |source| && b == target[..p] + source[p..]
    ensures b[q..r] == source[q..r]
  {
  }

  lemma ReadStart(u: bytes, wire: bytes, source: bytes, target: bytes)
    ensures u[0..] == u && wire[0..] == wire && target[..0] + source[0..] == source
  {
  }

  lemma ReadEnd(b: bytes, u: bytes, wire: bytes, tail: bytes, p: nat)
    requires p <= |u| == |wire| && u[p..] == wire[p..] && b == (u + tail)[..p] + (wire + tail)[p..]
    ensures b[..|u|] == u && b[|u|..] == tail
  {
    assert u == u[..p] + u[p..] && (u + tail)[..p] == u[..p] && (wire + tail)[p..] == wire[p..] + tail;
    Assoc(u[..p], u[p..], tail);
    assert b == u + tail;
  }

  lemma Finished(b: bytes, target: bytes, source: bytes, q: nat, r: nat)
    requires q <= r <= |target| == |source| && b == target[..r] + source[r..]
    ensures b[q..r] == target[q..r]
  {
  }

  lemma Prefixes(u: bytes, wire: bytes, tail: bytes, p: nat, q: nat, r: nat)
    requires p <= q <= r <= |u| == |wire|
    ensures (u + tail)[p..q] == u[p..q] && (u + tail)[q..r] == u[q..r]
    ensures (wire + tail)[p..q] == wire[p..q] && (wire + tail)[q..r] == wire[q..r]
    ensures (u + tail)[|u|..] == tail == (wire + tail)[|u|..]
  {
  }
}
