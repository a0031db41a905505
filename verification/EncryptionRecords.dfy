/** The record layer of CommonConn: nonces, sealed records, rekeying at nonce exhaustion, partial reads. */
module EncryptionRecords {
  import opened Bytes
  import opened Options
  import opened EncryptionSuite
  import opened EncryptionXor

  // ---- Nonces ----

  function Pow256(n: nat): (p: nat)
    ensures p > 0
  {
    if n == 0 then 1 else 256 * Pow256(n - 1)
  }

  /** The big-endian value of a nonce. */
  function Value(n: bytes): (v: nat)
    ensures v < Pow256(|n|)
  {
    if n == [] then 0 else 256 * Value(n[..|n| - 1]) + n[|n| - 1]
  }

  /** One more, from the last byte on; all 255 wraps to all zero. */
  function NextNonce(n: bytes): (r: bytes)
    ensures |r| == |n|
  {
    if n == [] then []
    else if n[|n| - 1] < 255 then n[..|n| - 1] + [n[|n| - 1] + 1]
    else NextNonce(n[..|n| - 1]) + [0]
  }

  /** IncreaseNonce is +1 modulo 256^length. */
  lemma {:induction false} NextNonceValue(n: bytes)
    ensures Value(NextNonce(n)) == (if Value(n) + 1 == Pow256(|n|) then 0 else Value(n) + 1)
    decreases |n|
  {
    if n != [] {
      var front, last := n[..|n| - 1], n[|n| - 1];
      var r := NextNonce(n);
      NextNonceValue(front);
      assert r[..|r| - 1] == (if last < 255 then front else NextNonce(front));
    }
  }

  lemma NextNonceNil()
    ensures NextNonce([]) == []
  {
  }

  /** The carry: a byte that does not wrap ends it. */
  lemma Carry(n: bytes, k: nat)
    requires k < |n|
    ensures NextNonce(n[..k + 1]) == if n[k] == 255 then NextNonce(n[..k]) + [0] else n[..k] + [n[k] + 1]
  {
    var front := n[..k + 1];
    assert front[k] == n[k] && front[..|front| - 1] == n[..k];
  }

  /** In place, as the source does it: the carry loop stops at the first byte that does not wrap. */
  method IncreaseNonce(nonce: array<byte>)
    requires nonce.Length == 12
    modifies nonce
    ensures nonce[..] == NextNonce(old(nonce[..]))
  {
    hide NextNonce;
    ghost var n0 := nonce[..];
    var i := 0;
    assert n0[..12] == n0 && nonce[12..] == [];
    NilRight(NextNonce(n0));
    NextNonceNil();
    while i < 12
      invariant 0 <= i <= 12
      invariant nonce[..12 - i] == n0[..12 - i]
      invariant NextNonce(n0) == NextNonce(n0[..12 - i]) + nonce[12 - i..]
    {
      var k := 11 - i;
      assert nonce[k] == nonce[..k + 1][k] == n0[k];
      Carry(n0, k);
      nonce[k] := if nonce[k] == 255 then 0 else nonce[k] + 1;
      assert nonce[k..] == [nonce[k]] + nonce[k + 1..];
      if nonce[k] != 0 {
        Assoc(n0[..k], [nonce[k]], nonce[k + 1..]);
        assert nonce[..] == nonce[..k] + nonce[k..];
        return;
      }
      Assoc(NextNonce(n0[..k]), [0], nonce[k + 1..]);
      i := i + 1;
    }
    assert n0[..0] == [] && nonce[0..] == nonce[..];
  }

  const ZERO_NONCE: bytes := Zeros(12)

  const MAX_NONCE: bytes := [255, 255, 255, 255, 255, 255, 255, 255, 255, 255, 255, 255]

  predicate IsMax(n: bytes) {
    n == MAX_NONCE
  }

  /** The nonce of the i-th seal under one key. */
  function NonceOf(i: nat): (n: bytes)
    ensures |n| == 12
  {
    if i == 0 then ZERO_NONCE else NextNonce(NonceOf(i - 1))
  }

  lemma {:induction false} ZeroValue(n: nat)
    ensures Value(Zeros(n)) == 0
  {
    if n > 0 {
      ZeroValue(n - 1);
      assert Zeros(n)[..n - 1] == Zeros(n - 1);
    }
  }

  /** The counter counts the seals, and wraps at the last one. */
  lemma {:induction false} NonceOfValue(i: nat)
    requires i <= Pow256(12)
    ensures Value(NonceOf(i)) == if i == Pow256(12) then 0 else i
  {
    hide Pow256, Value, NextNonce;
    if i == 0 {
      ZeroValue(12);
    } else {
      NonceOfValue(i - 1);
      NextNonceValue(NonceOf(i - 1));
    }
  }

  lemma {:induction false} MaxValue(n: nat, b: bytes)
    requires |b| == n
    ensures Value(b) + 1 == Pow256(n) <==> forall i :: 0 <= i < n ==> b[i] == 255
  {
    if n > 0 {
      var front := b[..n - 1];
      MaxValue(n - 1, front);
      assert forall i :: 0 <= i < n - 1 ==> front[i] == b[i];
      if Value(b) + 1 == Pow256(n) {
        assert Value(front) + 1 == Pow256(n - 1) && b[n - 1] == 255;
      }
    }
  }

  /** The seal that replaces the key is exactly the 2^96-th. */
  lemma RekeyAt(i: nat)
    requires i < Pow256(12)
    ensures IsMax(NonceOf(i)) <==> i == Pow256(12) - 1
  {
    hide Pow256, Value, NonceOf;
    NonceOfValue(i);
    MaxValue(12, NonceOf(i));
    if IsMax(NonceOf(i)) {
      assert forall k :: 0 <= k < 12 ==> NonceOf(i)[k] == 255;
    }
    if i == Pow256(12) - 1 {
      assert NonceOf(i) == seq(12, k => 255);
    }
  }

  // ---- Sealed records ----

  /** One AEAD of NewAEAD: the algorithm, the derived key and the 12-byte counter. */
  datatype Aead = Aead(useAES: bool, key: bytes, nonce: bytes)

  function NewAead(s: Suite, context: bytes, united: bytes, useAES: bool): Aead {
    Aead(useAES, s.kdf(context, united), ZERO_NONCE)
  }

  function RecordHeader(n: nat): (h: bytes)
    ensures |h| == 5
  {
    [23, 3, 3, Hi(n), Lo(n)]
  }

  function Body(s: Suite, a: Aead, chunk: bytes): bytes {
    s.seal(a.useAES, a.key, NextNonce(a.nonce), chunk, RecordHeader(|chunk| + 16))
  }

  function Record(s: Suite, a: Aead, chunk: bytes): bytes {
    RecordHeader(|chunk| + 16) + Body(s, a, chunk)
  }

  /** The AEAD after a record: its counter one up, or a new key derived from the record that exhausted it. */
  function Rolled(s: Suite, united: bytes, a: Aead, record: bytes): Aead {
    if IsMax(a.nonce) then NewAead(s, record, united, a.useAES) else a.(nonce := NextNonce(a.nonce))
  }

  function SendAll(s: Suite, united: bytes, a: Aead, chunks: seq<bytes>): bytes
    decreases |chunks|
  {
    if chunks == [] then []
    else var r := Record(s, a, chunks[0]); r + SendAll(s, united, Rolled(s, united, a, r), chunks[1..])
  }

  function AfterSend(s: Suite, united: bytes, a: Aead, chunks: seq<bytes>): Aead
    decreases |chunks|
  {
    if chunks == [] then a
    else AfterSend(s, united, Rolled(s, united, a, Record(s, a, chunks[0])), chunks[1..])
  }

  lemma {:induction false} SendAppend(s: Suite, united: bytes, a: Aead, x: seq<bytes>, y: seq<bytes>)
    ensures SendAll(s, united, a, x + y) == SendAll(s, united, a, x) + SendAll(s, united, AfterSend(s, united, a, x), y)
    ensures AfterSend(s, united, a, x + y) == AfterSend(s, united, AfterSend(s, united, a, x), y)
    decreases |x|
  {
    if x == [] {
      assert x + y == y;
    } else {
      var r := Record(s, a, x[0]);
      assert (x + y)[1..] == x[1..] + y;
      SendAppend(s, united, Rolled(s, united, a, r), x[1..], y);
      Assoc(r, SendAll(s, united, Rolled(s, united, a, r), x[1..]), SendAll(s, united, AfterSend(s, united, a, x), y));
    }
  }

  // ---- The nonces of a run of records ----

  /** The AEAD that seals the i-th record of a run. */
  function SealerOf(s: Suite, united: bytes, a: Aead, chunks: seq<bytes>, i: nat): Aead
    requires i <= |chunks|
  {
    AfterSend(s, united, a, chunks[..i])
  }

  /** The nonce it uses: the counter is increased first. */
  function UsedNonce(a: Aead): bytes {
    NextNonce(a.nonce)
  }

  lemma SealerNext(s: Suite, united: bytes, a: Aead, chunks: seq<bytes>, i: nat)
    requires i < |chunks|
    ensures var b := SealerOf(s, united, a, chunks, i);
            SealerOf(s, united, a, chunks, i + 1) == Rolled(s, united, b, Record(s, b, chunks[i]))
  {
    assert chunks[..i + 1] == chunks[..i] + [chunks[i]];
    SendAppend(s, united, a, chunks[..i], [chunks[i]]);
    var one: seq<bytes> := [chunks[i]];
    assert one[1..] == [];
  }

  /** What goes out is, record by record, sealed by these AEADs. */
  lemma {:induction false} SealersSeal(s: Suite, united: bytes, a: Aead, chunks: seq<bytes>, i: nat)
    requires i < |chunks|
    ensures var b := SealerOf(s, united, a, chunks, i);
            SendAll(s, united, a, chunks[..i + 1]) == SendAll(s, united, a, chunks[..i]) + Record(s, b, chunks[i])
  {
    assert chunks[..i + 1] == chunks[..i] + [chunks[i]];
    SendAppend(s, united, a, chunks[..i], [chunks[i]]);
    var b := SealerOf(s, united, a, chunks, i);
    var one: seq<bytes> := [chunks[i]];
    assert one[1..] == [];
    NilRight(Record(s, b, chunks[i]));
  }

  /** The counter counts the records sealed since the key was made, as long as it is not exhausted. */
  lemma {:induction false} CountsRecords(s: Suite, united: bytes, a: Aead, chunks: seq<bytes>, k: nat)
    requires a.nonce == NonceOf(k) && k + |chunks| < Pow256(12)
    ensures AfterSend(s, united, a, chunks) == a.(nonce := NonceOf(k + |chunks|))
    decreases |chunks|
  {
    hide Pow256, NextNonce, IsMax;
    if chunks != [] {
      RekeyAt(k);
      CountsRecords(s, united, Rolled(s, united, a, Record(s, a, chunks[0])), chunks[1..], k + 1);
    }
  }

  /** The record that finds the counter at its maximum, and no earlier one, is the one from which a new key is made. */
  lemma RekeysAtExhaustion(s: Suite, united: bytes, a: Aead, chunks: seq<bytes>, k: nat, i: nat)
    requires a.nonce == NonceOf(k) && i < |chunks| && k + i < Pow256(12)
    ensures var b := SealerOf(s, united, a, chunks, i);
            && b == a.(nonce := NonceOf(k + i)) && UsedNonce(b) == NonceOf(k + i + 1)
            && SealerOf(s, united, a, chunks, i + 1) ==
               if k + i == Pow256(12) - 1 then NewAead(s, Record(s, b, chunks[i]), united, a.useAES) else a.(nonce := NonceOf(k + i + 1))
  {
    hide Pow256, NextNonce, IsMax;
    CountsRecords(s, united, a, chunks[..i], k);
    RekeyAt(k + i);
    SealerNext(s, united, a, chunks, i);
  }

  /** From one record to a later one without a new key in between the counter only goes up. */
  lemma {:induction false} CounterRises(s: Suite, united: bytes, a: Aead, chunks: seq<bytes>, i: nat, j: nat)
    requires |a.nonce| == 12 && i <= j <= |chunks|
    requires forall m :: i <= m < j ==> !IsMax(SealerOf(s, united, a, chunks, m).nonce)
    ensures var b, c := SealerOf(s, united, a, chunks, i), SealerOf(s, united, a, chunks, j);
            |b.nonce| == |c.nonce| == 12 && c.key == b.key && c.useAES == b.useAES && Value(c.nonce) == Value(b.nonce) + (j - i)
    decreases j - i
  {
    hide Pow256, Value, NextNonce, IsMax, SealerOf;
    NonceLength(s, united, a, chunks, i);
    if i < j {
      CounterRises(s, united, a, chunks, i, j - 1);
      var c := SealerOf(s, united, a, chunks, j - 1);
      SealerNext(s, united, a, chunks, j - 1);
      BelowMax(c.nonce);
      NextNonceValue(c.nonce);
      NonceLength(s, united, a, chunks, j);
    }
  }

  lemma BelowMax(n: bytes)
    requires |n| == 12 && !IsMax(n)
    ensures Value(n) + 1 != Pow256(12)
  {
    hide Pow256, Value;
    MaxValue(12, n);
  }

  lemma {:induction false} NonceLength(s: Suite, united: bytes, a: Aead, chunks: seq<bytes>, i: nat)
    requires |a.nonce| == 12 && i <= |chunks|
    ensures |SealerOf(s, united, a, chunks, i).nonce| == 12
    decreases i
  {
    if i == 0 {
      assert chunks[..0] == [];
    } else {
      NonceLength(s, united, a, chunks, i - 1);
      SealerNext(s, united, a, chunks, i - 1);
      hide AfterSend;
    }
  }

  /**
   * No nonce repeats under one key: two records of a run, whatever counter it starts from, are sealed with different
   * nonces unless a new key was made between them.
   */
  lemma NoNonceTwice(s: Suite, united: bytes, a: Aead, chunks: seq<bytes>, i: nat, j: nat)
    requires |a.nonce| == 12 && i < j < |chunks|
    requires forall m :: i <= m < j ==> !IsMax(SealerOf(s, united, a, chunks, m).nonce)
    ensures var b, c := SealerOf(s, united, a, chunks, i), SealerOf(s, united, a, chunks, j);
            c.key == b.key && c.useAES == b.useAES && UsedNonce(b) != UsedNonce(c)
  {
    CounterRises(s, united, a, chunks, i, j);
    var b, c := SealerOf(s, united, a, chunks, i), SealerOf(s, united, a, chunks, j);
    hide Pow256, Value, NextNonce, IsMax, SealerOf;
    BelowMax(b.nonce);
    NextNonceValue(b.nonce);
    NextNonceValue(c.nonce);
  }

  // ---- Reading ----

  datatype Error = ShortRead | BadHeader | NewHandshake | BadSeal
  datatype Outcome = Got(data: bytes) | Fail(error: Error)

  /**
   * The receiving half: the peer's AEAD (absent on a 0-RTT client until the server's random arrives), the length of a
   * padding still to be read and dropped, decrypted bytes not yet asked for, the bytes of the connection, and whether a
   * bad header means that the ticket was refused.
   */
  datatype In = In(peer: Option<Aead>, padding: Option<nat>, input: bytes, conn: bytes, client: bool)

  /** io.ReadFull of the server's random bytes, from which a 0-RTT client derives the peer's AEAD. */
  function TakeRandom(s: Suite, united: bytes, useAES: bool, i: In): (In, Outcome) {
    if i.peer.Some? then (i, Got([]))
    else if |i.conn| < 16 then (i.(conn := []), Fail(ShortRead))
    else (i.(peer := Some(NewAead(s, i.conn[..16], united, useAES)), conn := i.conn[16..]), Got([]))
  }

  /** io.ReadFull and Open of the handshake padding a 1-RTT client still expects. */
  function TakePadding(s: Suite, i: In): (In, Outcome)
    requires i.peer.Some?
  {
    if i.padding.None? then (i, Got([]))
    else if |i.conn| < i.padding.value then (i.(conn := []), Fail(ShortRead))
    else
      var a := i.peer.value;
      var next := a.(nonce := NextNonce(a.nonce));
      var rest := i.conn[i.padding.value..];
      if s.open(a.useAES, a.key, next.nonce, i.conn[..i.padding.value], []).None?
      then (i.(peer := Some(next), conn := rest), Fail(BadSeal))
      else (i.(peer := Some(next), padding := None, conn := rest), Got([]))
  }

  /** One record, of which at most n bytes are returned and the others kept. */
  function TakeRecord(s: Suite, united: bytes, i: In, n: nat): (In, Outcome)
    requires i.peer.Some?
  {
    if |i.conn| < 5 then (i.(conn := []), Fail(ShortRead))
    else
      var header, a := i.conn[..5], i.peer.value;
      var l := HeaderLength(header);
      if l < 17 || l > 16640 then (i.(conn := i.conn[5..]), Fail(if i.client then NewHandshake else BadHeader))
      else if |i.conn| < 5 + l then (i.(conn := [], client := false), Fail(ShortRead))
      else
        var data := i.conn[5..5 + l];
        var next := i.(peer := Some(Rolled(s, united, a, header + data)), conn := i.conn[5 + l..], client := false);
        var plain := s.open(a.useAES, a.key, NextNonce(a.nonce), data, header);
        if plain.None? then (next, Fail(BadSeal))
        else if |plain.value| <= n then (next, Got(plain.value))
        else (next.(input := plain.value[n..]), Got(plain.value[..n]))
  }

  function ReadStep(s: Suite, united: bytes, useAES: bool, i: In, n: nat): (In, Outcome)
  {
    if n == 0 then (i, Got([]))
    else
      var (i1, o1) := TakeRandom(s, united, useAES, i);
      if o1.Fail? then (i1, o1)
      else
        var (i2, o2) := TakePadding(s, i1);
        if o2.Fail? then (i2, o2)
        else if |i2.input| > n then (i2.(input := i2.input[n..]), Got(i2.input[..n]))
        else if i2.input != [] then (i2.(input := []), Got(i2.input))
        else TakeRecord(s, united, i2, n)
  }

  /** The connection holds exactly the records of these chunks, sealed as the reader expects them. */
  ghost predicate Streaming(s: Suite, united: bytes, i: In, chunks: seq<bytes>) {
    && i.peer.Some? && i.padding.None?
    && GoodChunks(chunks)
    && i.conn == SendAll(s, united, i.peer.value, chunks)
  }

  /** The same, possibly behind what a handshake left to be read first. */
  ghost predicate InSync(s: Suite, united: bytes, useAES: bool, i: In, chunks: seq<bytes>) {
    var (i1, o1) := TakeRandom(s, united, useAES, i);
    o1.Got? && var (i2, o2) := TakePadding(s, i1); o2.Got? && Streaming(s, united, i2, chunks)
  }

  lemma HeaderRoundTrip(n: nat)
    requires n < 0x1_0000
    ensures HeaderLength(RecordHeader(n)) == n
  {
    U16RoundTrip(n);
  }

  /** The next record is found, opened, and both ends roll on to the same AEAD. */
  lemma TakeRecordInSync(s: Suite, united: bytes, i: In, chunks: seq<bytes>, n: nat)
    requires s.SealLaws() && Streaming(s, united, i, chunks) && i.input == [] && chunks != [] && n > 0
    ensures var (j, o) := TakeRecord(s, united, i, n);
            && Streaming(s, united, j, chunks[1..])
            && o.Got? && 0 < |o.data| <= n
            && o.data + j.input == chunks[0]
  {
    var a, chunk := i.peer.value, chunks[0];
    var header, body := RecordHeader(|chunk| + 16), Body(s, a, chunk);
    var rest := SendAll(s, united, Rolled(s, united, a, header + body), chunks[1..]);
    assert Record(s, a, chunk) == header + body;
    assert |body| == |chunk| + 16;
    TakeSlices(i.conn, header, body, rest);
    HeaderRoundTrip(|chunk| + 16);
    assert s.open(a.useAES, a.key, NextNonce(a.nonce), body, header) == Some(chunk);
    NilRight(chunk);
    assert |chunk| > n ==> chunk[..n] + chunk[n..] == chunk;
  }

  lemma TakeSlices(conn: bytes, header: bytes, body: bytes, rest: bytes)
    requires conn == (header + body) + rest && |header| == 5
    ensures conn[..5] == header && conn[5..5 + |body|] == body && conn[5 + |body|..] == rest
  {
  }

  /** One Read of a synchronised connection returns the next bytes, at least one, and stays synchronised. */
  lemma ReadInSync(s: Suite, united: bytes, useAES: bool, i: In, chunks: seq<bytes>, n: nat) returns (left: seq<bytes>)
    requires s.SealLaws() && InSync(s, united, useAES, i, chunks) && n > 0 && i.input + Concat(chunks) != []
    ensures var (j, o) := ReadStep(s, united, useAES, i, n);
            && InSync(s, united, useAES, j, left)
            && o.Got? && 0 < |o.data| <= n
            && o.data + (j.input + Concat(left)) == i.input + Concat(chunks)
  {
    hide SendAll, Concat, TakeRecord, GoodChunks;
    var i2 := TakePadding(s, TakeRandom(s, united, useAES, i).0).0;
    if i2.input == [] {
      EmptyConcat(i.input, chunks);
      TakeRecordInSync(s, united, i2, chunks, n);
      left := chunks[1..];
      var (j, o) := TakeRecord(s, united, i2, n);
      Assoc(o.data, j.input, Concat(left));
    } else {
      left := chunks;
      var k := if |i.input| > n then n else |i.input|;
      SplitInput(i.input, Concat(chunks), k);
    }
  }

  lemma SplitInput(input: bytes, rest: bytes, k: nat)
    requires k <= |input|
    ensures input[..k] + (input[k..] + rest) == input + rest
    ensures k == |input| ==> input[..k] == input && input[k..] == []
  {
    Assoc(input[..k], input[k..], rest);
    assert input[..k] + input[k..] == input;
  }

  lemma EmptyConcat(input: bytes, chunks: seq<bytes>)
    requires input == [] && input + Concat(chunks) != []
    ensures chunks != [] && input + Concat(chunks) == chunks[0] + Concat(chunks[1..])
  {
  }

  /** What a run of Reads with the given buffer sizes returns, up to the first that finds nothing. */
  function ReadRun(s: Suite, united: bytes, useAES: bool, i: In, sizes: seq<nat>): bytes
    decreases |sizes|
  {
    if sizes == [] then []
    else
      var (j, o) := ReadStep(s, united, useAES, i, sizes[0]);
      if o.Fail? then [] else o.data + ReadRun(s, united, useAES, j, sizes[1..])
  }

  /**
   * No loss, no repeat, no reordering: with any non-empty buffers a run of Reads returns a prefix of what was written,
   * leftovers and rekeying included, and enough of them return all of it.
   */
  lemma {:induction false} ReadsDeliver(s: Suite, united: bytes, useAES: bool, i: In, chunks: seq<bytes>, sizes: seq<nat>)
    requires s.SealLaws() && InSync(s, united, useAES, i, chunks)
    requires forall k :: 0 <= k < |sizes| ==> sizes[k] > 0
    ensures ReadRun(s, united, useAES, i, sizes) <= i.input + Concat(chunks)
    ensures |sizes| >= |i.input + Concat(chunks)| ==> ReadRun(s, united, useAES, i, sizes) == i.input + Concat(chunks)
    decreases |sizes|
  {
    hide InSync, ReadStep, Concat;
    var all := i.input + Concat(chunks);
    if sizes != [] {
      if all == [] {
        NothingLeft(s, united, useAES, i, chunks, sizes[0]);
      } else {
        var left := ReadInSync(s, united, useAES, i, chunks, sizes[0]);
        var (j, o) := ReadStep(s, united, useAES, i, sizes[0]);
        ReadsDeliver(s, united, useAES, j, left, sizes[1..]);
        var run := ReadRun(s, united, useAES, j, sizes[1..]);
        assert o.data + run <= all;
        assert |sizes[1..]| >= |j.input + Concat(left)| ==> o.data + run == all;
      }
    }
  }

  /** When everything has been returned the next Read waits for the connection. */
  lemma NothingLeft(s: Suite, united: bytes, useAES: bool, i: In, chunks: seq<bytes>, n: nat)
    requires InSync(s, united, useAES, i, chunks) && i.input + Concat(chunks) == [] && n > 0
    ensures ReadStep(s, united, useAES, i, n).1 == Fail(ShortRead)
  {
    assert chunks == [];
  }

  // ---- The connection ----

  class CommonConn {
    const suite: Suite
    const useAES: bool
    const united: bytes
    var preWrite: Option<bytes>
    var aead: Aead
    /** Everything written to the underlying connection. */
    var sent: bytes
    var inn: In

    constructor (suite: Suite, useAES: bool, united: bytes, preWrite: Option<bytes>, aead: Aead, inn: In)
      ensures this.suite == suite && this.useAES == useAES && this.united == united
      ensures this.preWrite == preWrite && this.aead == aead && this.inn == inn && sent == []
    {
      this.suite, this.useAES, this.united := suite, useAES, united;
      this.preWrite, this.aead, this.inn, sent := preWrite, aead, inn, [];
    }

    /** The bytes still owed in front of the first record. */
    function Owed(): bytes
      reads this`preWrite
    {
      if preWrite.Some? then preWrite.value else []
    }

    /** One turn of the Write loop: one sealed record, behind what is owed. */
    method WriteRecord(piece: bytes) returns (ghost record: bytes)
      modifies this`preWrite, this`aead, this`sent
      ensures record == Record(suite, old(aead), piece) && aead == Rolled(suite, united, old(aead), record)
      ensures sent == old(sent) + (old(Owed()) + record) && preWrite.None?
    {
      var header := RecordHeader(|piece| + 16);
      var max := IsMax(aead.nonce);
      var headerAndData := header + suite.seal(aead.useAES, aead.key, NextNonce(aead.nonce), piece, header);
      record := headerAndData;
      aead := aead.(nonce := NextNonce(aead.nonce));
      if max {
        aead := NewAead(suite, headerAndData, united, aead.useAES);
      }
      if preWrite.Some? {
        headerAndData := preWrite.value + headerAndData;
        preWrite := None;
      }
      sent := sent + headerAndData;
    }

    /** Write seals its argument in pieces of at most 8192 bytes, each one record, and rolls the AEAD at every record. */
    method Write(b: bytes)
      modifies this`preWrite, this`aead, this`sent
      ensures var pre := if b != [] then old(Owed()) else [];
              sent == old(sent) + (pre + SendAll(suite, united, old(aead), Chunked(b)))
      ensures aead == AfterSend(suite, united, old(aead), Chunked(b))
      ensures b != [] ==> preWrite.None?
      ensures b == [] ==> preWrite == old(preWrite)
    {
      if |b| == 0 {
        assert sent + ([] + []) == sent;
        return;
      }
      hide SendAll, AfterSend, Chunked, Record, Rolled;
      ghost var a0, s0, pre := aead, sent, Owed();
      var rest := b;
      ghost var wrote: bytes := [];
      NilRight(pre);
      while |rest| > 0
        invariant |rest| <= |b| && (|rest| < |b| ==> preWrite.None?)
        invariant sent + Owed() == s0 + (pre + wrote)
        invariant wrote + SendAll(suite, united, aead, Chunked(rest)) == SendAll(suite, united, a0, Chunked(b))
        invariant AfterSend(suite, united, aead, Chunked(rest)) == AfterSend(suite, united, a0, Chunked(b))
        decreases |rest|
      {
        var piece := if |rest| > SIZE then rest[..SIZE] else rest;
        var last := if |rest| > SIZE then rest[SIZE..] else [];
        RecordTurn(suite, united, aead, rest, piece, last, Record(suite, aead, piece));
        Append4(sent, Owed(), Record(suite, aead, piece), s0, pre, wrote);
        ghost var record := WriteRecord(piece);
        NilRight(sent);
        Assoc(wrote, record, SendAll(suite, united, aead, Chunked(last)));
        wrote := wrote + record;
        rest := last;
      }
      NothingMore(suite, united, aead, wrote, rest);
      NilRight(sent);
    }

    /** copy(b, data). */
    method CopyOut(b: array<byte>, data: bytes) returns (n: nat)
      modifies b
      ensures n == (if |data| < b.Length then |data| else b.Length) && b[..n] == data[..n]
    {
      n := if |data| < b.Length then |data| else b.Length;
      forall k | 0 <= k < n {
        b[k] := data[k];
      }
    }

    /** io.ReadFull of k bytes: all of them, or what there is and an error. */
    method ReadFull(k: nat) returns (data: bytes, ok: bool)
      modifies this`inn
      ensures ok == (k <= |old(inn).conn|)
      ensures ok ==> data == old(inn).conn[..k] && inn == old(inn).(conn := old(inn).conn[k..])
      ensures !ok ==> inn == old(inn).(conn := [])
    {
      ok := k <= |inn.conn|;
      var m := if ok then k else |inn.conn|;
      data := inn.conn[..m];
      inn := inn.(conn := inn.conn[m..]);
    }

    /** The part of Read that a fresh handshake makes necessary: the server's random bytes, then the padding. */
    method Settle() returns (err: Option<Error>)
      modifies this`inn
      ensures var (i1, o1) := TakeRandom(suite, united, useAES, old(inn));
              if o1.Fail? then err == Some(o1.error) && inn == i1
              else var (i2, o2) := TakePadding(suite, i1); inn == i2 && err == if o2.Fail? then Some(o2.error) else None
    {
      if inn.peer.None? {
        var serverRandom, ok := ReadFull(16);
        if !ok {
          return Some(ShortRead);
        }
        inn := inn.(peer := Some(NewAead(suite, serverRandom, united, useAES)));
      }
      if inn.padding.Some? {
        var peerPadding, ok := ReadFull(inn.padding.value);
        if !ok {
          return Some(ShortRead);
        }
        var a := inn.peer.value;
        inn := inn.(peer := Some(a.(nonce := NextNonce(a.nonce))));
        if suite.open(a.useAES, a.key, NextNonce(a.nonce), peerPadding, []).None? {
          return Some(BadSeal);
        }
        inn := inn.(padding := None);
      }
      return None;
    }

    /** The part of Read that takes one record off the connection. */
    method ReadRecord(b: array<byte>) returns (n: nat, err: Option<Error>)
      requires inn.peer.Some? && inn.input == []
      modifies this`inn, b
      ensures var (j, o) := TakeRecord(suite, united, old(inn), b.Length);
              && inn == j
              && (if o.Fail? then err == Some(o.error) else err == None && n == |o.data| && n <= b.Length && b[..n] == o.data)
    {
      n := 0;
      var peerHeader, ok := ReadFull(5);
      if !ok {
        return 0, Some(ShortRead);
      }
      var l := HeaderLength(peerHeader);
      if l < 17 || l > 16640 {
        return 0, Some(if inn.client then NewHandshake else BadHeader);
      }
      inn := inn.(client := false);
      var peerData;
      peerData, ok := ReadFull(l);
      if !ok {
        return 0, Some(ShortRead);
      }
      assert old(inn).conn[5..][..l] == old(inn).conn[5..5 + l];
      assert old(inn).conn[5..][l..] == old(inn).conn[5 + l..];
      var a := inn.peer.value;
      var plain := suite.open(a.useAES, a.key, NextNonce(a.nonce), peerData, peerHeader);
      inn := inn.(peer := Some(Rolled(suite, united, a, peerHeader + peerData)));
      if plain.None? {
        return 0, Some(BadSeal);
      }
      n := CopyOut(b, plain.value);
      assert plain.value[..|plain.value|] == plain.value;
      if |plain.value| > b.Length {
        inn := inn.(input := plain.value[n..]);
      }
      err := None;
    }

    /** Read is the reference step, into the caller's buffer. */
    method Read(b: array<byte>) returns (n: nat, err: Option<Error>)
      modifies this`inn, b
      ensures var (j, o) := ReadStep(suite, united, useAES, old(inn), b.Length);
              && inn == j
              && (if o.Fail? then err == Some(o.error) else err == None && n == |o.data| && n <= b.Length && b[..n] == o.data)
    {
      if b.Length == 0 {
        return 0, None;
      }
      err := Settle();
      if err.Some? {
        return 0, err;
      }
      if |inn.input| > 0 {
        n := CopyOut(b, inn.input);
        assert inn.input[..|inn.input|] == inn.input;
        inn := inn.(input := inn.input[n..]);
        return n, None;
      }
      n, err := ReadRecord(b);
    }
  }

  /** The pieces of a sequence of Writes. */
  function Pieces(writes: seq<bytes>): (r: seq<bytes>)
    ensures GoodChunks(r) && Concat(r) == Concat(writes)
    decreases |writes|
  {
    if writes == [] then []
    else
      ConcatAppend(Chunked(writes[0]), Pieces(writes[1..]));
      Chunked(writes[0]) + Pieces(writes[1..])
  }

  /** What a sequence of Writes puts on the connection, write by write. */
  function WriteAll(s: Suite, united: bytes, a: Aead, writes: seq<bytes>): bytes
    decreases |writes|
  {
    if writes == [] then []
    else SendAll(s, united, a, Chunked(writes[0])) + WriteAll(s, united, AfterSend(s, united, a, Chunked(writes[0])), writes[1..])
  }

  lemma {:induction false} WriteAllPieces(s: Suite, united: bytes, a: Aead, writes: seq<bytes>)
    ensures WriteAll(s, united, a, writes) == SendAll(s, united, a, Pieces(writes))
    decreases |writes|
  {
    if writes != [] {
      SendAppend(s, united, a, Chunked(writes[0]), Pieces(writes[1..]));
      WriteAllPieces(s, united, AfterSend(s, united, a, Chunked(writes[0])), writes[1..]);
    }
  }

  /**
   * The record layer, end to end: for any sequence of Writes under the AEAD a, and any sequence of non-empty Read buffers
   * at a peer that holds the same AEAD, the peer gets the written bytes in order, and all of them given enough Reads.
   */
  lemma RecordLayer(s: Suite, united: bytes, useAES: bool, a: Aead, writes: seq<bytes>, sizes: seq<nat>, client: bool)
    requires s.SealLaws() && forall k :: 0 <= k < |sizes| ==> sizes[k] > 0
    ensures var i := In(Some(a), None, [], WriteAll(s, united, a, writes), client);
            && ReadRun(s, united, useAES, i, sizes) <= Concat(writes)
            && (|sizes| >= |Concat(writes)| ==> ReadRun(s, united, useAES, i, sizes) == Concat(writes))
  {
    WriteAllPieces(s, united, a, writes);
    var i := In(Some(a), None, [], WriteAll(s, united, a, writes), client);
    assert Streaming(s, united, i, Pieces(writes));
    assert [] + Concat(writes) == Concat(writes);
    ReadsDeliver(s, united, useAES, i, Pieces(writes), sizes);
  }

  lemma Append4(sent: bytes, pending: bytes, record: bytes, s0: bytes, pre: bytes, wrote: bytes)
    requires sent + pending == s0 + (pre + wrote)
    ensures sent + (pending + record) == s0 + (pre + (wrote + record))
  {
    Assoc(sent, pending, record);
    Assoc(s0, pre + wrote, record);
    Assoc(pre, wrote, record);
  }

  lemma NothingMore(s: Suite, united: bytes, a: Aead, wrote: bytes, rest: bytes)
    requires rest == []
    ensures wrote + SendAll(s, united, a, Chunked(rest)) == wrote && AfterSend(s, united, a, Chunked(rest)) == a
  {
    NilRight(wrote);
  }

  /** One piece of a Write. */
  lemma RecordTurn(s: Suite, united: bytes, a: Aead, rest: bytes, piece: bytes, last: bytes, record: bytes)
    requires rest != [] && piece == (if |rest| > SIZE then rest[..SIZE] else rest)
    requires last == (if |rest| > SIZE then rest[SIZE..] else []) && record == Record(s, a, piece)
    ensures SendAll(s, united, a, Chunked(rest)) == record + SendAll(s, united, Rolled(s, united, a, record), Chunked(last))
    ensures AfterSend(s, united, a, Chunked(rest)) == AfterSend(s, united, Rolled(s, united, a, record), Chunked(last))
  {
    var n := if |rest| > SIZE then SIZE else |rest|;
    assert rest[..n] == piece && rest[n..] == last;
    assert Chunked(rest) == [piece] + Chunked(last);
    assert ([piece] + Chunked(last))[1..] == Chunked(last);
  }
}
