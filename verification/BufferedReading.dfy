/** The buffered reader, over a stream that arrives as lists of buffers. */
module BufferedReading {
  import opened Bytes
  import opened MultiBuffers

  datatype ReadError = NoError | Eof | UnexpectedEof | TooLarge

  function FlatAll(source: seq<MultiBuffer>): bytes {
    if source == [] then [] else Flat(source[0]) + FlatAll(source[1..])
  }

  ghost predicate AllValid(source: seq<MultiBuffer>) {
    forall i :: 0 <= i < |source| ==> Valid(source[i]) && Small(source[i])
  }

  /** Cutting the head of the stream in two does not change the stream. */
  lemma CutHead(given: bytes, head: bytes, front: bytes, rest: bytes, tail: bytes)
    requires front + rest == head
    ensures (given + front) + (rest + tail) == given + (head + tail)
  {
    Assoc(front, rest, tail);
    Assoc(given, front, rest + tail);
  }

  class BufferedReader {
    /** What the underlying reader will still return, call by call; then the end of the stream. */
    var source: seq<MultiBuffer>
    var buffer: MultiBuffer
    /** Everything handed out so far, by whichever method. */
    ghost var given: bytes

    ghost predicate Valid()
      reads this
    {
      MultiBuffers.Valid(buffer) && Small(buffer) && AllValid(source)
    }

    /** The bytes still to come. */
    ghost function Stream(): bytes
      reads this
    {
      Flat(buffer) + FlatAll(source)
    }

    constructor (source: seq<MultiBuffer>)
      requires AllValid(source)
      ensures Valid() && given == [] && Stream() == FlatAll(source) && this.source == source
    {
      this.source, buffer, given := source, [], [];
    }

    /** The underlying reader's next list. */
    method Pull() returns (mb: MultiBuffer, e: ReadError)
      requires Valid() && Flat(buffer) == []
      modifies this`source
      ensures Valid() && MultiBuffers.Valid(mb) && Small(mb) && (e == Eof <==> old(source) == []) && e in {NoError, Eof}
      ensures Flat(mb) + FlatAll(source) == old(Stream())
      ensures e == Eof ==> mb == [] && source == []
      ensures e == NoError ==> |source| == |old(source)| - 1
    {
      if source == [] {
        return [], Eof;
      }
      mb, e := source[0], NoError;
      source := source[1..];
    }

    /** Up to n bytes, from the buffer first. */
    method Read(n: nat) returns (b: bytes, e: ReadError)
      requires Valid()
      modifies this
      ensures Valid() && e in {NoError, Eof} && |b| <= n
      ensures b + Stream() == old(Stream()) && given == old(given) + b
      ensures e == Eof ==> b == [] && Stream() == []
      ensures e == NoError && n > 0 ==> b != [] || |source| < |old(source)|
      ensures |source| <= |old(source)|
    {
      var empty := IsEmpty(buffer);
      var mb := buffer;
      e := NoError;
      if empty {
        mb, e := Pull();
        if e != NoError {
          NilRight(given);
          return [], e;
        }
      }
      var rest;
      rest, b := SplitBytes(mb, n);
      CutHead([], Flat(mb), b, Flat(rest), FlatAll(source));
      assert [] + b == b && [] + (Flat(mb) + FlatAll(source)) == Flat(mb) + FlatAll(source);
      buffer := rest;
      given := given + b;
    }

    method ReadMultiBuffer() returns (mb: MultiBuffer, e: ReadError)
      requires Valid()
      modifies this
      ensures Valid() && MultiBuffers.Valid(mb) && e in {NoError, Eof}
      ensures Flat(mb) + Stream() == old(Stream()) && given == old(given) + Flat(mb)
      ensures e == Eof ==> Flat(mb) == [] && Stream() == []
      ensures e == NoError ==> Flat(mb) != [] || |source| < |old(source)|
    {
      var empty := IsEmpty(buffer);
      mb, e := buffer, NoError;
      if empty {
        mb, e := Pull();
      }
      buffer := [];
      given := given + Flat(mb);
    }

    /** At most `size` bytes as a list of buffers. */
    method ReadAtMost(size: nat) returns (mb: MultiBuffer, e: ReadError)
      requires Valid()
      modifies this
      ensures Valid() && MultiBuffers.Valid(mb) && e in {NoError, Eof} && |Flat(mb)| <= size
      ensures Flat(mb) + Stream() == old(Stream()) && given == old(given) + Flat(mb)
      ensures e == Eof ==> Flat(mb) == [] && Stream() == []
      ensures e == NoError && size > 0 ==> Flat(mb) != [] || |source| < |old(source)| || |buffer| < |old(buffer)|
      ensures |source| <= |old(source)| && (|source| == |old(source)| ==> |buffer| <= |old(buffer)|)
    {
      var empty := IsEmpty(buffer);
      e := NoError;
      if empty {
        mb, e := Pull();
        if e != NoError {
          NilRight(given);
          return [], e;
        }
        buffer := mb;
      }
      var rest;
      rest, mb := SplitSize(buffer, size);
      CutHead([], Flat(buffer), Flat(mb), Flat(rest), FlatAll(source));
      assert [] + Flat(mb) == Flat(mb) && [] + (Flat(buffer) + FlatAll(source)) == Flat(buffer) + FlatAll(source);
      buffer := rest;
      given := given + Flat(mb);
    }
  }
}
