/** The payload of one mux frame: a two-byte size and that many bytes, read as a stream or as a packet. */
module MuxReaders {
  import opened Bytes
  import opened MultiBuffers
  import opened BufferedReading

  /** What copying one payload delivers, whether it reports an error, and what it leaves of the stream. */
  datatype Payload = Payload(error: ReadError, data: bytes, rest: bytes)

  /** A stream that ends early counts as the end of the payload, except inside the size. */
  function StreamPayload(s: bytes): Payload {
    if s == [] then Payload(NoError, [], [])
    else if |s| == 1 then Payload(UnexpectedEof, [], [])
    else
      var n := Least(U16(s[0], s[1]), |s| - 2);
      Payload(NoError, s[2..2 + n], s[2 + n..])
  }

  function PacketPayload(s: bytes): Payload {
    if s == [] then Payload(NoError, [], [])
    else if |s| == 1 then Payload(UnexpectedEof, [], [])
    else
      var n := U16(s[0], s[1]);
      if n > SIZE then Payload(TooLarge, [], s[2..])
      else if |s| < 2 + n then Payload(if |s| == 2 then NoError else UnexpectedEof, [], [])
      else Payload(NoError, s[2..2 + n], s[2 + n..])
  }

  function FullError(n: nat, s: bytes): ReadError {
    if |s| >= n then NoError else if s == [] then Eof else UnexpectedEof
  }

  lemma Progress(s: bytes, b: bytes, more: bytes, rest: bytes)
    requires s == b + (more + rest)
    ensures s == (b + more) + rest
  {
    Assoc(b, more, rest);
  }

  /** io.ReadFull: exactly n bytes, or all there is and the reason. */
  method ReadFull(r: BufferedReader, n: nat) returns (b: bytes, e: ReadError)
    requires r.Valid()
    modifies r
    ensures r.Valid() && e == FullError(n, old(r.Stream()))
    ensures b == old(r.Stream())[..Least(n, |old(r.Stream())|)] && r.Stream() == old(r.Stream())[Least(n, |old(r.Stream())|)..]
  {
    b, e := [], NoError;
    ghost var s := r.Stream();
    assert [] + s == s;
    while |b| < n
      invariant r.Valid() && s == b + r.Stream() && |b| <= n
      decreases n - |b|, |r.source|
    {
      var more, e1 := r.Read(n - |b|);
      if e1 == Eof {
        NilRight(b);
        e := if b == [] then Eof else UnexpectedEof;
        AllTaken(b);
        return;
      }
      Progress(s, b, more, r.Stream());
      b := b + more;
    }
    CutAt(b, r.Stream());
  }

  lemma CutAt(b: bytes, rest: bytes)
    ensures (b + rest)[..|b|] == b && (b + rest)[|b|..] == rest
  {
  }

  class ChunkStreamReader {
    const reader: BufferedReader
    const maxNumChunk: nat
    var leftOverSize: nat
    var numChunk: nat

    constructor (reader: BufferedReader, maxNumChunk: nat)
      ensures this.reader == reader && this.maxNumChunk == maxNumChunk && leftOverSize == 0 && numChunk == 0
    {
      this.reader, this.maxNumChunk := reader, maxNumChunk;
      leftOverSize, numChunk := 0, 0;
    }

    /** The size of the next chunk, unless enough chunks were read. */
    method NextSize() returns (size: nat, e: ReadError)
      requires reader.Valid()
      modifies this`numChunk, reader
      ensures reader.Valid() && numChunk == old(numChunk) + 1
      ensures maxNumChunk > 0 && numChunk > maxNumChunk ==> e == Eof && reader.Stream() == old(reader.Stream())
      ensures !(maxNumChunk > 0 && numChunk > maxNumChunk) ==>
                var s := old(reader.Stream());
                && reader.Stream() == s[Least(2, |s|)..]
                && (|s| < 2 ==> e == FullError(2, s))
                && (|s| >= 2 ==> size == U16(s[0], s[1]) && (e == Eof <==> size == 0) && (size > 0 ==> e == NoError))
    {
      numChunk := numChunk + 1;
      size := 0;
      if maxNumChunk > 0 && numChunk > maxNumChunk {
        return size, Eof;
      }
      var b;
      b, e := ReadFull(reader, 2);
      if e != NoError {
        return;
      }
      size := U16(b[0], b[1]);
      if size == 0 {
        e := Eof;
      }
    }

    /** A piece of the chunk being read. */
    method ReadSome(size: nat) returns (mb: MultiBuffer, e: ReadError)
      requires reader.Valid() && size > 0
      modifies this`leftOverSize, reader
      ensures reader.Valid() && e in {NoError, Eof}
      ensures Flat(mb) + reader.Stream() == old(reader.Stream()) && |Flat(mb)| + leftOverSize == size
      ensures e == Eof ==> Flat(mb) == [] && reader.Stream() == []
      ensures e == NoError ==> Flat(mb) != [] || |reader.source| < |old(reader.source)| || |reader.buffer| < |old(reader.buffer)|
      ensures |reader.source| <= |old(reader.source)|
      ensures |reader.source| == |old(reader.source)| ==> |reader.buffer| <= |old(reader.buffer)|
    {
      leftOverSize := size;
      mb, e := reader.ReadAtMost(size);
      var empty := IsEmpty(mb);
      if !empty {
        var n := Len(mb);
        leftOverSize := leftOverSize - n;
        e := NoError;
      }
    }

    method ReadMultiBuffer() returns (mb: MultiBuffer, e: ReadError)
      requires reader.Valid()
      modifies this, reader
      ensures reader.Valid()
      ensures old(leftOverSize) > 0 ==>
                && numChunk == old(numChunk) && e in {NoError, Eof}
                && Flat(mb) + reader.Stream() == old(reader.Stream()) && |Flat(mb)| + leftOverSize == old(leftOverSize)
                && (e == Eof ==> Flat(mb) == [] && reader.Stream() == [])
                && (e == NoError ==> Flat(mb) != [] || |reader.source| < |old(reader.source)| || |reader.buffer| < |old(reader.buffer)|)
                && |reader.source| <= |old(reader.source)|
                && (|reader.source| == |old(reader.source)| ==> |reader.buffer| <= |old(reader.buffer)|)
      ensures old(leftOverSize) == 0 ==> numChunk == old(numChunk) + 1
      ensures old(leftOverSize) == 0 && maxNumChunk > 0 && numChunk > maxNumChunk ==>
                e == Eof && mb == [] && leftOverSize == 0 && reader.Stream() == old(reader.Stream())
      ensures old(leftOverSize) == 0 && !(maxNumChunk > 0 && numChunk > maxNumChunk) ==>
                var s := old(reader.Stream());
                if |s| < 2 then e == FullError(2, s) && mb == [] && leftOverSize == 0 && reader.Stream() == []
                else if U16(s[0], s[1]) == 0 then e == Eof && mb == [] && leftOverSize == 0 && reader.Stream() == s[2..]
                else && e in {NoError, Eof} && Flat(mb) + reader.Stream() == s[2..]
                     && |Flat(mb)| + leftOverSize == U16(s[0], s[1])
                     && (e == Eof ==> Flat(mb) == [] && reader.Stream() == [])
    {
      var size := leftOverSize;
      mb := [];
      if size == 0 {
        size, e := NextSize();
        if e != NoError {
          return;
        }
      }
      mb, e := ReadSome(size);
    }
  }

  /** The rest of a chunk once its size is known: all of it, or all there is. */
  method CopyRest(c: ChunkStreamReader) returns (data: bytes)
    requires c.reader.Valid() && c.maxNumChunk == 1 && c.numChunk == 1
    modifies c, c.reader
    ensures c.reader.Valid()
    ensures var s := old(c.reader.Stream());
            var n := Least(old(c.leftOverSize), |s|);
            data == s[..n] && c.reader.Stream() == s[n..]
  {
    data := [];
    ghost var s, left := c.reader.Stream(), c.leftOverSize;
    assert [] + s == s;
    while true
      invariant c.reader.Valid() && c.numChunk == 1
      invariant s == data + c.reader.Stream() && |data| + c.leftOverSize == left
      decreases c.leftOverSize, |c.reader.source|, |c.reader.buffer|
    {
      hide Flat, FlatAll;
      ghost var rest := c.reader.Stream();
      var mb, e := c.ReadMultiBuffer();
      var piece := Flatten(mb);
      if e != NoError {
        CutAt(data, rest);
        return;
      }
      Progress(s, data, piece, c.reader.Stream());
      data := data + piece;
    }
  }

  /** The writer's side of buf.Copy: the buffers' bytes in order. */
  method Flatten(mb: MultiBuffer) returns (b: bytes)
    ensures b == Flat(mb)
  {
    b := [];
    for i := 0 to |mb|
      invariant b + Flat(mb[i..]) == Flat(mb)
    {
      FlatAt(mb, i);
      Assoc(b, mb[i].data, Flat(mb[i + 1..]));
      b := b + mb[i].data;
    }
    FlatNone(mb);
    NilRight(b);
  }

  lemma StreamPayloadParts(s: bytes, first: bytes, more: bytes, rest: bytes)
    requires |s| >= 2 && first + (more + rest) == s[2..] && |first| + |more| == Least(U16(s[0], s[1]), |s| - 2)
    ensures StreamPayload(s) == Payload(NoError, first + more, rest)
  {
    Assoc(first, more, rest);
    var n := |first| + |more|;
    CutAt(first + more, rest);
    assert s[2..][..n] == s[2..2 + n] && s[2..][n..] == s[2 + n..];
  }

  /** buf.Copy over the stream reader of one frame. */
  method CopyStreamPayload(r: BufferedReader) returns (data: bytes, e: ReadError)
    requires r.Valid()
    modifies r
    ensures r.Valid() && Payload(e, data, r.Stream()) == StreamPayload(old(r.Stream()))
  {
    hide FlatAll;
    ghost var s := r.Stream();
    var c := new ChunkStreamReader(r, 1);
    var mb;
    mb, e := c.ReadMultiBuffer();
    data := Flatten(mb);
    if e != NoError {
      e := if e == Eof then NoError else e;
      EarlyEnd(s, data, r.Stream());
      return;
    }
    ghost var rest := r.Stream();
    var more := CopyRest(c);
    ghost var n := |more|;
    assert rest == more + r.Stream();
    StreamPayloadParts(s, data, more, r.Stream());
    data := data + more;
  }

  lemma EarlyEnd(s: bytes, data: bytes, rest: bytes)
    requires data == []
    ensures |s| >= 2 && U16(s[0], s[1]) == 0 && rest == s[2..] ==> StreamPayload(s) == Payload(NoError, [], rest)
    ensures |s| == 2 && rest == [] ==> StreamPayload(s) == Payload(NoError, [], [])
  {
  }

  /** The packet reader: the whole payload or none of it. */
  method CopyPacketPayload(r: BufferedReader) returns (data: bytes, e: ReadError)
    requires r.Valid()
    modifies r
    ensures r.Valid() && Payload(e, data, r.Stream()) == PacketPayload(old(r.Stream()))
  {
    ghost var s := r.Stream();
    var b;
    data := [];
    b, e := ReadFull(r, 2);
    if e != NoError {
      e := if e == Eof then NoError else e;
      return;
    }
    var size := U16(b[0], b[1]);
    assert b[0] == s[0] && b[1] == s[1];
    if size > SIZE {
      return [], TooLarge;
    }
    b, e := ReadFull(r, size);
    if e != NoError {
      e := if e == Eof then NoError else e;
      return;
    }
    data := b;
    assert s[2..][..size] == s[2..2 + size] && s[2..][size..] == s[2 + size..];
  }
}
