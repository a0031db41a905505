/** The Vision padding code: blocks on the wire, the resumable unpadding automaton, and the round trip over any chunking. */
module VisionUnpadding {
  import opened Bytes

  const PADDING_CONTINUE: byte := 0
  const PADDING_END: byte := 1
  const PADDING_DIRECT: byte := 2

  /** One padded block: a command, two 16-bit lengths, the content and the padding bytes. */
  datatype Block = Block(command: byte, content: bytes, padding: bytes) {
    predicate Fits() {
      |content| < 0x1_0000 && |padding| < 0x1_0000
    }
  }

  function HeaderOf(b: Block): (h: bytes)
    ensures |h| == 5
  {
    [b.command, Hi(|b.content|), Lo(|b.content|), Hi(|b.padding|), Lo(|b.padding|)]
  }

  function EncodeBlock(b: Block): bytes {
    HeaderOf(b) + b.content + b.padding
  }

  function EncodeBlocks(blocks: seq<Block>): bytes {
    if blocks == [] then [] else EncodeBlock(blocks[0]) + EncodeBlocks(blocks[1..])
  }

  function Contents(blocks: seq<Block>): bytes {
    if blocks == [] then [] else blocks[0].content + Contents(blocks[1..])
  }

  predicate AllContinue(blocks: seq<Block>) {
    forall i :: 0 <= i < |blocks| ==> blocks[i].Fits() && blocks[i].command == PADDING_CONTINUE
  }

  /** Continue blocks followed by exactly one block with another command. */
  predicate Terminated(blocks: seq<Block>) {
    && blocks != []
    && AllContinue(blocks[..|blocks| - 1])
    && blocks[|blocks| - 1].Fits()
    && blocks[|blocks| - 1].command != PADDING_CONTINUE
  }

  /** The reader's counters: RemainingCommand, RemainingContent, RemainingPadding, CurrentCommand. */
  datatype Link = Link(cmd: int, content: int, padding: int, current: int) {
    predicate Initial() {
      cmd == -1 && content == -1 && padding == -1
    }

    /** What every state left behind by XtlsUnpadding satisfies. */
    predicate Valid() {
      || Initial()
      || (&& 1 <= cmd <= 5 && content >= -1 && padding >= -1
          && (cmd <= 3 ==> content >= 0)
          && (cmd == 3 ==> content % 256 == 0)
          && (cmd == 1 ==> padding >= 0 && padding % 256 == 0))
      || (cmd == 0 && content >= 0 && padding >= 0 && content + padding > 0)
    }

    /** The "this block done" test at the end of every loop turn. */
    function Settle(): Link {
      if cmd <= 0 && content <= 0 && padding <= 0 then
        if current == 0 then this.(cmd := 5) else Link(-1, -1, -1, current)
      else
        this
    }

    /** One header byte; the low length bytes are joined by `|` on a multiple of 256. */
    function Header(d: byte): Link {
      match cmd
      case 5 => Link(4, content, padding, d)
      case 4 => Link(3, d * 256, padding, current)
      case 3 => Link(2, content + d, padding, current)
      case 2 => Link(1, content, d * 256, current)
      case _ => Link(cmd - 1, content, padding + d, current)
    }

    /** Reference automaton: the state after one byte. */
    function Step(d: byte): Link {
      if Initial() then this
      else if cmd > 0 then Header(d).Settle()
      else if content > 0 then this.(content := content - 1).Settle()
      else this.(padding := padding - 1).Settle()
    }

    /** Reference automaton: the bytes handed out for one byte. */
    function Emit(d: byte): bytes {
      if Initial() || (cmd <= 0 && content > 0) then [d] else []
    }
  }

  /** The state after the bytes b. */
  function After(l: Link, b: bytes): Link
    decreases |b|
  {
    if b == [] then l else After(l.Step(b[0]), b[1..])
  }

  /** The bytes handed out for the bytes b. */
  function Output(l: Link, b: bytes): bytes
    decreases |b|
  {
    if b == [] then [] else l.Emit(b[0]) + Output(l.Step(b[0]), b[1..])
  }

  /** A buffer that opens a padded stream: at least 21 bytes, the user's UUID in front. */
  predicate Opens(uuid: bytes, b: bytes) {
    |b| >= 21 && uuid == b[..16]
  }

  /** The state after one XtlsUnpadding call, in terms of the byte automaton. */
  function AfterChunk(uuid: bytes, l: Link, b: bytes): Link {
    if !l.Initial() then After(l, b)
    else if Opens(uuid, b) then After(l.(cmd := 5), b[16..])
    else l
  }

  /** The buffer returned by one XtlsUnpadding call, in terms of the byte automaton. */
  function ChunkOutput(uuid: bytes, l: Link, b: bytes): bytes {
    if !l.Initial() then Output(l, b)
    else if Opens(uuid, b) then Output(l.(cmd := 5), b[16..])
    else b
  }

  function AfterChunks(uuid: bytes, l: Link, chunks: seq<bytes>): Link
    decreases |chunks|
  {
    if chunks == [] then l else AfterChunks(uuid, AfterChunk(uuid, l, chunks[0]), chunks[1..])
  }

  function ChunksOutput(uuid: bytes, l: Link, chunks: seq<bytes>): bytes
    decreases |chunks|
  {
    if chunks == [] then []
    else ChunkOutput(uuid, l, chunks[0]) + ChunksOutput(uuid, AfterChunk(uuid, l, chunks[0]), chunks[1..])
  }

  // ---- The automaton on whole runs of bytes ----

  lemma {:induction false} FeedAppend(l: Link, a: bytes, b: bytes)
    ensures After(l, a + b) == After(After(l, a), b)
    ensures Output(l, a + b) == Output(l, a) + Output(After(l, a), b)
    decreases |a|
  {
    if a == [] {
      assert a + b == b;
    } else {
      assert (a + b)[1..] == a[1..] + b;
      FeedAppend(l.Step(a[0]), a[1..], b);
      Assoc(l.Emit(a[0]), Output(l.Step(a[0]), a[1..]), Output(After(l, a), b));
    }
  }

  lemma {:induction false} FeedInitial(l: Link, b: bytes)
    requires l.Initial()
    ensures After(l, b) == l && Output(l, b) == b
    decreases |b|
  {
    if b != [] {
      FeedInitial(l, b[1..]);
      assert b == [b[0]] + b[1..];
    }
  }

  lemma {:induction false} FeedValid(l: Link, b: bytes)
    requires l.Valid()
    ensures After(l, b).Valid() && |Output(l, b)| <= |b|
    decreases |b|
  {
    if b != [] {
      FeedValid(l.Step(b[0]), b[1..]);
    }
  }

  /** Content bytes are handed out in one go. */
  lemma {:induction false} FeedContentRun(l: Link, b: bytes)
    requires l.cmd == 0 && l.padding >= 0 && 0 < |b| <= l.content
    ensures After(l, b) == l.(content := l.content - |b|).Settle() && Output(l, b) == b
    decreases |b|
  {
    var rest := b[1..];
    assert b == [b[0]] + rest;
    assert Output(l, b) == [b[0]] + Output(l.Step(b[0]), rest);
    if rest != [] {
      FeedContentRun(l.(content := l.content - 1), rest);
    }
  }

  /** Padding bytes are dropped in one go. */
  lemma {:induction false} FeedPaddingRun(l: Link, b: bytes)
    requires l.cmd == 0 && l.content == 0 && 0 < |b| <= l.padding
    ensures After(l, b) == l.(padding := l.padding - |b|).Settle() && Output(l, b) == []
    decreases |b|
  {
    var rest := b[1..];
    assert Output(l, b) == [] + Output(l.Step(b[0]), rest);
    if rest != [] {
      FeedPaddingRun(l.(padding := l.padding - 1), rest);
    }
  }

  /** A loop turn over the first n content bytes of s. */
  lemma TurnContent(l: Link, s: bytes, n: nat)
    requires l.cmd == 0 && l.padding >= 0 && 0 < n <= l.content && n <= |s|
    ensures After(l, s) == After(l.(content := l.content - n).Settle(), s[n..])
    ensures Output(l, s) == s[..n] + Output(l.(content := l.content - n).Settle(), s[n..])
  {
    FeedContentRun(l, s[..n]);
    FeedAppend(l, s[..n], s[n..]);
    assert s == s[..n] + s[n..];
  }

  /** A loop turn over the first n padding bytes of s. */
  lemma TurnPadding(l: Link, s: bytes, n: nat)
    requires l.cmd == 0 && l.content == 0 && 0 < n <= l.padding && n <= |s|
    ensures After(l, s) == After(l.(padding := l.padding - n).Settle(), s[n..])
    ensures Output(l, s) == Output(l.(padding := l.padding - n).Settle(), s[n..])
  {
    FeedPaddingRun(l, s[..n]);
    FeedAppend(l, s[..n], s[n..]);
    assert s == s[..n] + s[n..];
  }

  function AfterBlock(command: byte): Link {
    if command == PADDING_CONTINUE then Link(5, 0, 0, 0) else Link(-1, -1, -1, command)
  }

  /** The state after the five header bytes of a block, before the "block done" test. */
  function BodyOf(b: Block): Link {
    Link(0, |b.content|, |b.padding|, b.command)
  }

  /** A header byte is consumed and counted. */
  lemma FeedHeaderByte(l: Link, h: bytes)
    requires 1 <= l.cmd <= 5 && h != []
    ensures After(l, h) == After(l.Header(h[0]).Settle(), h[1..])
    ensures Output(l, h) == Output(l.Header(h[0]).Settle(), h[1..])
  {
  }

  /** Five header bytes set the command and the two lengths, whatever the counters held before. */
  lemma FeedHeader(l: Link, h: bytes)
    requires l.cmd == 5 && |h| == 5
    ensures After(l, h) == Link(0, U16(h[1], h[2]), U16(h[3], h[4]), h[0]).Settle() && Output(l, h) == []
  {
    var l1 := Link(4, l.content, l.padding, h[0]);
    var l2 := Link(3, U16(h[1], 0), l.padding, h[0]);
    var l3 := Link(2, U16(h[1], h[2]), l.padding, h[0]);
    var l4 := Link(1, U16(h[1], h[2]), U16(h[3], 0), h[0]);
    FeedHeaderByte(l, h);
    FeedHeaderByte(l1, h[1..]);
    assert h[1..][1..] == h[2..];
    FeedHeaderByte(l2, h[2..]);
    assert h[2..][1..] == h[3..];
    FeedHeaderByte(l3, h[3..]);
    assert h[3..][1..] == h[4..];
    FeedHeaderByte(l4, h[4..]);
    assert h[4..][1..] == [];
  }

  lemma FeedBody(b: Block)
    requires b.Fits() && |b.content| + |b.padding| > 0
    ensures After(BodyOf(b), b.content + b.padding) == AfterBlock(b.command)
    ensures Output(BodyOf(b), b.content + b.padding) == b.content
  {
    var s := BodyOf(b);
    FeedAppend(s, b.content, b.padding);
    if b.content == [] {
      FeedPaddingRun(s, b.padding);
    } else {
      FeedContentRun(s, b.content);
      if b.padding != [] {
        FeedPaddingRun(s.(content := 0), b.padding);
      }
    }
  }

  /** No proper prefix of s makes the automaton initial. */
  predicate BusyThrough(l: Link, s: bytes)
    decreases |s|
  {
    s == [] || (!l.Initial() && BusyThrough(l.Step(s[0]), s[1..]))
  }

  lemma {:induction false} BusyTail(l: Link, s: bytes, n: nat)
    requires BusyThrough(l, s) && n <= |s|
    ensures BusyThrough(After(l, s[..n]), s[n..])
    ensures n < |s| ==> !After(l, s[..n]).Initial()
    decreases n
  {
    if n == 0 {
      assert s[0..] == s;
    } else {
      BusyTail(l.Step(s[0]), s[1..], n - 1);
      assert s[1..][..n - 1] == s[..n][1..] && s[1..][n - 1..] == s[n..];
    }
  }

  lemma {:induction false} BusyAppend(l: Link, a: bytes, b: bytes)
    requires BusyThrough(l, a) && BusyThrough(After(l, a), b)
    ensures BusyThrough(l, a + b)
    decreases |a|
  {
    if a == [] {
      assert a + b == b;
    } else {
      BusyAppend(l.Step(a[0]), a[1..], b);
      assert (a + b)[1..] == a[1..] + b;
    }
  }

  lemma {:induction false} BusyPrefix(l: Link, a: bytes, b: bytes)
    requires BusyThrough(l, a + b)
    ensures BusyThrough(l, a)
    decreases |a|
  {
    if a != [] {
      assert (a + b)[1..] == a[1..] + b;
      BusyPrefix(l.Step(a[0]), a[1..], b);
    }
  }

  /** The header of a block, and no prefix of it, takes the automaton to the body. */
  lemma FeedBlockHeader(l: Link, b: Block)
    requires l.cmd == 5 && b.Fits()
    ensures After(l, HeaderOf(b)) == BodyOf(b).Settle() && Output(l, HeaderOf(b)) == []
    ensures BusyThrough(l, HeaderOf(b))
  {
    hide Hi, Lo, U16, After, Output, BusyThrough;
    U16RoundTrip(|b.content|);
    U16RoundTrip(|b.padding|);
    FeedHeader(l, HeaderOf(b));
    BusyHeader(l, HeaderOf(b));
  }

  lemma {:induction false} BusyHeader(l: Link, h: bytes)
    requires |h| <= l.cmd <= 5
    ensures BusyThrough(l, h)
    decreases |h|
  {
    if |h| > 1 {
      BusyHeader(l.Header(h[0]), h[1..]);
    } else if |h| == 1 {
      assert BusyThrough(l.Step(h[0]), h[1..]);
    }
  }

  lemma {:induction false} BusyBody(l: Link, b: bytes)
    requires l.cmd == 0 && l.content >= 0 && l.padding >= 0 && |b| <= l.content + l.padding
    ensures BusyThrough(l, b)
    decreases |b|
  {
    if |b| > 1 {
      BusyBody(l.Step(b[0]), b[1..]);
    } else if |b| == 1 {
      assert BusyThrough(l.Step(b[0]), b[1..]);
    }
  }

  /** A whole block yields its content and leaves the automaton ready for the next block, or initial. */
  lemma FeedBlock(l: Link, b: Block)
    requires l.cmd == 5 && b.Fits()
    ensures After(l, EncodeBlock(b)) == AfterBlock(b.command) && Output(l, EncodeBlock(b)) == b.content
    ensures BusyThrough(l, EncodeBlock(b))
  {
    var e := EncodeBlock(b);
    var h, body := HeaderOf(b), b.content + b.padding;
    assert e == h + body;
    FeedBlockHeader(l, b);
    FeedAppend(l, h, body);
    if body == [] {
      assert e == h;
    } else {
      FeedBody(b);
      BusyBody(BodyOf(b), body);
      BusyAppend(l, h, body);
    }
  }

  lemma {:induction false} FeedContinues(l: Link, blocks: seq<Block>)
    requires l.cmd == 5 && AllContinue(blocks) && blocks != []
    ensures After(l, EncodeBlocks(blocks)) == Link(5, 0, 0, 0) && Output(l, EncodeBlocks(blocks)) == Contents(blocks)
    ensures BusyThrough(l, EncodeBlocks(blocks))
    decreases |blocks|
  {
    var e, rest := EncodeBlock(blocks[0]), EncodeBlocks(blocks[1..]);
    FeedBlock(l, blocks[0]);
    FeedAppend(l, e, rest);
    if blocks[1..] != [] {
      FeedContinues(Link(5, 0, 0, 0), blocks[1..]);
    }
    BusyAppend(l, e, rest);
  }

  lemma {:induction false} EncodeBlocksAppend(a: seq<Block>, b: seq<Block>)
    ensures EncodeBlocks(a + b) == EncodeBlocks(a) + EncodeBlocks(b)
    ensures Contents(a + b) == Contents(a) + Contents(b)
  {
    if a == [] {
      assert a + b == b;
    } else {
      assert (a + b)[1..] == a[1..] + b;
      EncodeBlocksAppend(a[1..], b);
      Assoc(EncodeBlock(a[0]), EncodeBlocks(a[1..]), EncodeBlocks(b));
      Assoc(a[0].content, Contents(a[1..]), Contents(b));
    }
  }

  lemma EncodeBlocksSnoc(a: seq<Block>, x: Block)
    ensures EncodeBlocks(a + [x]) == EncodeBlocks(a) + EncodeBlock(x)
    ensures Contents(a + [x]) == Contents(a) + x.content
  {
    EncodeBlocksAppend(a, [x]);
    assert [x][1..] == [];
    assert EncodeBlocks([x]) == EncodeBlock(x) + EncodeBlocks([]);
    assert Contents([x]) == x.content + Contents([]);
  }

  /** A terminated stream yields its contents, becomes initial at its last byte and not before. */
  lemma FeedTerminated(l: Link, blocks: seq<Block>)
    requires l.cmd == 5 && Terminated(blocks)
    ensures After(l, EncodeBlocks(blocks)) == Link(-1, -1, -1, blocks[|blocks| - 1].command)
    ensures Output(l, EncodeBlocks(blocks)) == Contents(blocks)
    ensures BusyThrough(l, EncodeBlocks(blocks))
  {
    var init, last := blocks[..|blocks| - 1], blocks[|blocks| - 1];
    assert blocks == init + [last];
    EncodeBlocksSnoc(init, last);
    var p, e := EncodeBlocks(init), EncodeBlock(last);
    var l1 := if init == [] then l else Link(5, 0, 0, 0);
    if init != [] {
      FeedContinues(l, init);
    }
    FeedBlock(l1, last);
    FeedAppend(l, p, e);
    BusyAppend(l, p, e);
  }

  // ---- Any chunking ----

  /** While the automaton is inside the padded stream, the cut into chunks is invisible. */
  lemma {:induction false} ChunksInside(uuid: bytes, l: Link, chunks: seq<bytes>)
    requires BusyThrough(l, Concat(chunks))
    ensures AfterChunks(uuid, l, chunks) == After(l, Concat(chunks))
    ensures ChunksOutput(uuid, l, chunks) == Output(l, Concat(chunks))
    decreases |chunks|
  {
    if chunks != [] {
      var c, s := chunks[0], Concat(chunks);
      var rest := Concat(chunks[1..]);
      assert s[..|c|] == c && s[|c|..] == rest;
      BusyTail(l, s, |c|);
      FeedAppend(l, c, rest);
      ChunksInside(uuid, After(l, c), chunks[1..]);
    }
  }

  /** Some chunk that begins `skip` or more bytes into the stream opens a padded stream again. */
  predicate Resyncs(uuid: bytes, skip: nat, chunks: seq<bytes>)
    decreases |chunks|
  {
    if chunks == [] then false
    else if skip == 0 then Opens(uuid, chunks[0]) || Resyncs(uuid, 0, chunks[1..])
    else Resyncs(uuid, if |chunks[0]| < skip then skip - |chunks[0]| else 0, chunks[1..])
  }

  /** The automaton never outputs more bytes than it reads. */
  lemma {:induction false} ChunksShrink(uuid: bytes, l: Link, chunks: seq<bytes>)
    requires l.Valid()
    ensures |ChunksOutput(uuid, l, chunks)| <= |Concat(chunks)|
    decreases |chunks|
  {
    if chunks != [] {
      var c := chunks[0];
      if l.Initial() && Opens(uuid, c) {
        FeedValid(l.(cmd := 5), c[16..]);
      } else {
        FeedValid(l, c);
      }
      ChunksShrink(uuid, AfterChunk(uuid, l, c), chunks[1..]);
    }
  }

  /** In the initial state chunks pass through unchanged exactly when none of them opens a padded stream. */
  lemma {:induction false} PassThrough(uuid: bytes, l: Link, chunks: seq<bytes>)
    requires l.Initial()
    ensures !Resyncs(uuid, 0, chunks) ==> AfterChunks(uuid, l, chunks) == l && ChunksOutput(uuid, l, chunks) == Concat(chunks)
    ensures Resyncs(uuid, 0, chunks) ==> |ChunksOutput(uuid, l, chunks)| < |Concat(chunks)|
    decreases |chunks|
  {
    if chunks != [] {
      var c := chunks[0];
      if Opens(uuid, c) {
        FeedValid(l.(cmd := 5), c[16..]);
        ChunksShrink(uuid, AfterChunk(uuid, l, c), chunks[1..]);
      } else {
        PassThrough(uuid, l, chunks[1..]);
      }
    }
  }

  /** From inside a padded stream that ends with s and is followed by tail, over any chunks. */
  lemma {:induction false} ChunksAcrossEnd(uuid: bytes, l: Link, chunks: seq<bytes>, s: bytes, tail: bytes)
    requires Concat(chunks) == s + tail
    requires BusyThrough(l, s) && After(l, s).Initial()
    ensures ChunksOutput(uuid, l, chunks) == Output(l, s) + tail <==> !Resyncs(uuid, |s|, chunks)
    ensures Resyncs(uuid, |s|, chunks) ==> |ChunksOutput(uuid, l, chunks)| < |Output(l, s)| + |tail|
    ensures !Resyncs(uuid, |s|, chunks) ==> AfterChunks(uuid, l, chunks) == After(l, s)
    decreases |chunks|
  {
    if s == [] {
      PassThrough(uuid, l, chunks);
      assert s + tail == tail;
    } else {
      var c, rest := chunks[0], Concat(chunks[1..]);
      if |c| < |s| {
        SplitTwice(s, tail, c, rest);
        ChunkBeforeEnd(uuid, l, chunks, s, tail);
      } else {
        var t := c[|s|..];
        SplitTwice(c, rest, s, tail);
        FeedAppend(l, s, t);
        assert c == s + t;
        var l1, o1 := After(l, s), Output(l, s);
        FeedInitial(l1, t);
        PassThrough(uuid, l1, chunks[1..]);
        Assoc(o1, t, rest);
        CancelFront(o1 + t, ChunksOutput(uuid, l1, chunks[1..]), rest);
      }
    }
  }

  /** The step of ChunksAcrossEnd for a chunk that ends inside the padded stream. */
  lemma {:induction false} ChunkBeforeEnd(uuid: bytes, l: Link, chunks: seq<bytes>, s: bytes, tail: bytes)
    requires chunks != [] && |chunks[0]| < |s| && chunks[0] == s[..|chunks[0]|]
    requires Concat(chunks[1..]) == s[|chunks[0]|..] + tail
    requires !l.Initial() && BusyThrough(l, s) && After(l, s).Initial()
    ensures ChunksOutput(uuid, l, chunks) == Output(l, s) + tail <==> !Resyncs(uuid, |s|, chunks)
    ensures Resyncs(uuid, |s|, chunks) ==> |ChunksOutput(uuid, l, chunks)| < |Output(l, s)| + |tail|
    ensures !Resyncs(uuid, |s|, chunks) ==> AfterChunks(uuid, l, chunks) == After(l, s)
    decreases |chunks|, 0
  {
    var c := chunks[0];
    var s' := s[|c|..];
    BusyTail(l, s, |c|);
    FeedAppend(l, c, s');
    assert s == c + s';
    var l1, o1 := After(l, c), Output(l, c);
    ChunksAcrossEnd(uuid, l1, chunks[1..], s', tail);
    var want := Output(l1, s') + tail;
    Assoc(o1, Output(l1, s'), tail);
    CancelFront(o1, ChunksOutput(uuid, l1, chunks[1..]), want);
  }

  /** The first chunk of a padded stream only loses the UUID; what follows is the automaton at a block header. */
  lemma OpeningChunk(uuid: bytes, l: Link, chunks: seq<bytes>, stream: bytes, n: nat) returns (inner: seq<bytes>)
    requires |uuid| == 16 && l.Initial() && chunks != [] && |chunks[0]| >= 21 && Concat(chunks) == uuid + stream && n > 0
    ensures Concat(inner) == stream
    ensures AfterChunks(uuid, l, chunks) == AfterChunks(uuid, l.(cmd := 5), inner)
    ensures ChunksOutput(uuid, l, chunks) == ChunksOutput(uuid, l.(cmd := 5), inner)
    ensures Resyncs(uuid, 16 + n, chunks) == Resyncs(uuid, n, inner)
  {
    var c, rest := chunks[0], chunks[1..];
    inner := [c[16..]] + rest;
    assert inner[1..] == rest;
    SplitTwice(c, Concat(rest), uuid, stream);
    assert Opens(uuid, c);
    var l5 := l.(cmd := 5);
    assert AfterChunk(uuid, l, c) == AfterChunk(uuid, l5, c[16..]);
    assert ChunkOutput(uuid, l, c) == ChunkOutput(uuid, l5, c[16..]);
  }

  /**
   * Round trip. For every terminated sequence of blocks behind the UUID, followed by any tail and cut into any chunks
   * whose first has at least 21 bytes: unpadding yields exactly the contents and the tail if and only if no chunk that
   * begins after the last block opens a padded stream again; the automaton is then initial and holds the last command.
   */
  lemma RoundTrip(uuid: bytes, blocks: seq<Block>, tail: bytes, chunks: seq<bytes>, l: Link)
    requires |uuid| == 16 && l.Initial() && Terminated(blocks)
    requires chunks != [] && |chunks[0]| >= 21
    requires Concat(chunks) == uuid + (EncodeBlocks(blocks) + tail)
    ensures ChunksOutput(uuid, l, chunks) == Contents(blocks) + tail
            <==> !Resyncs(uuid, 16 + |EncodeBlocks(blocks)|, chunks)
    ensures !Resyncs(uuid, 16 + |EncodeBlocks(blocks)|, chunks) ==>
              AfterChunks(uuid, l, chunks) == Link(-1, -1, -1, blocks[|blocks| - 1].command)
  {
    hide AfterChunks, ChunksOutput, Resyncs, After, Output, BusyThrough, EncodeBlocks, Contents;
    FeedTerminated(l.(cmd := 5), blocks);
    StreamRoundTrip(uuid, EncodeBlocks(blocks), Contents(blocks), tail, chunks, l);
  }

  /** The condition is needed: the user's bytes behind an End block are taken for a padded stream if they start with the UUID. */
  lemma ReopenedStreamLosesBytes(uuid: bytes, l: Link)
    requires |uuid| == 16 && l.Initial()
    ensures var first, tail: bytes := uuid + [1, 0, 0, 0, 0], uuid + [1, 0, 0, 0, 0];
            && Concat([first, tail]) == uuid + (EncodeBlocks([Block(1, [], [])]) + tail)
            && |ChunksOutput(uuid, l, [first, tail])| < |Contents([Block(1, [], [])]) + tail|
  {
    var end, header := [Block(1, [], [])], [1, 0, 0, 0, 0];
    var first, tail: bytes := uuid + header, uuid + header;
    var chunks: seq<bytes> := [first, tail];
    EncodeBlocksSnoc([], end[0]);
    assert [] + end == end && EncodeBlocks(end) == header;
    var later: seq<bytes> := chunks[1..];
    assert later == [tail] && later[1..] == [];
    ConcatSnoc([], first);
    ConcatSnoc([first], tail);
    assert [] + [first] == [first] && [] + first == first && [first] + [tail] == chunks;
    Assoc(uuid, header, tail);
    FeedTerminated(l.(cmd := 5), end);
    assert tail[..16] == uuid && Opens(uuid, tail);
    assert Resyncs(uuid, 21, chunks);
    StreamRoundTrip(uuid, header, [], tail, chunks, l);
  }

  /** The round trip of any byte stream that keeps the automaton busy until its last byte. */
  lemma StreamRoundTrip(uuid: bytes, e: bytes, contents: bytes, tail: bytes, chunks: seq<bytes>, l: Link)
    requires |uuid| == 16 && l.Initial() && BusyThrough(l.(cmd := 5), e) && After(l.(cmd := 5), e).Initial()
    requires Output(l.(cmd := 5), e) == contents
    requires chunks != [] && |chunks[0]| >= 21 && Concat(chunks) == uuid + (e + tail)
    ensures ChunksOutput(uuid, l, chunks) == contents + tail <==> !Resyncs(uuid, 16 + |e|, chunks)
    ensures Resyncs(uuid, 16 + |e|, chunks) ==> |ChunksOutput(uuid, l, chunks)| < |contents| + |tail|
    ensures !Resyncs(uuid, 16 + |e|, chunks) ==> AfterChunks(uuid, l, chunks) == After(l.(cmd := 5), e)
  {
    var inner := OpeningChunk(uuid, l, chunks, e + tail, |e|);
    ChunksAcrossEnd(uuid, l.(cmd := 5), inner, e, tail);
  }

  /** The same while the stream is still open: only Continue blocks so far, the automaton waits for the next header. */
  lemma RoundTripOpen(uuid: bytes, blocks: seq<Block>, chunks: seq<bytes>, l: Link)
    requires |uuid| == 16 && l.Initial() && AllContinue(blocks) && blocks != []
    requires chunks != [] && |chunks[0]| >= 21
    requires Concat(chunks) == uuid + EncodeBlocks(blocks)
    ensures AfterChunks(uuid, l, chunks) == Link(5, 0, 0, 0) && ChunksOutput(uuid, l, chunks) == Contents(blocks)
  {
    var inner := OpeningChunk(uuid, l, chunks, EncodeBlocks(blocks), 1);
    FeedContinues(l.(cmd := 5), blocks);
    ChunksInside(uuid, l.(cmd := 5), inner);
  }

  /** A first chunk of fewer than 21 bytes leaks: its bytes come out as they are and the automaton stays initial. */
  lemma ShortFirstChunkLeaks(uuid: bytes, l: Link, chunks: seq<bytes>)
    requires l.Initial() && chunks != [] && |chunks[0]| < 21
    ensures chunks[0] <= ChunksOutput(uuid, l, chunks)
  {
    assert ChunksOutput(uuid, l, chunks) == chunks[0] + ChunksOutput(uuid, l, chunks[1..]);
  }
}
