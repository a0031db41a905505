/** VisionReader: in-place compaction of the unpadded buffers, the flag update after each read, and the handover to raw copy. */
module VisionReader {
  import opened Bytes
  import opened Options
  import opened VisionUnpadding
  import opened VisionTraffic

  /** What one call of the underlying reader returned, and whether packets were still being filtered at that time. */
  datatype Read = Read(chunks: seq<bytes>, filtering: bool)

  /** The part of the traffic state a reader decides on. */
  datatype Mode = Mode(link: Link, within: bool, direct: bool)

  /** The flag update that follows every unpadded read. */
  function Update(l: Link, within: bool): Mode {
    if l.content > 0 || l.padding > 0 || l.current == 0 then Mode(l, true, false)
    else if l.current == 1 then Mode(l, false, false)
    else if l.current == 2 then Mode(l, false, true)
    else Mode(l, within, false)
  }

  function AfterRead(uuid: bytes, m: Mode, r: Read): Mode {
    if Concat(r.chunks) == [] || m.direct || !(m.within || r.filtering) then m
    else Update(AfterChunks(uuid, m.link, r.chunks), m.within)
  }

  function ReadOutput(uuid: bytes, m: Mode, r: Read): bytes {
    if Concat(r.chunks) == [] || m.direct || !(m.within || r.filtering) then Concat(r.chunks)
    else ChunksOutput(uuid, m.link, r.chunks)
  }

  function AfterReads(uuid: bytes, m: Mode, rs: seq<Read>): Mode
    decreases |rs|
  {
    if rs == [] then m else AfterReads(uuid, AfterRead(uuid, m, rs[0]), rs[1..])
  }

  function ReadsOutput(uuid: bytes, m: Mode, rs: seq<Read>): bytes
    decreases |rs|
  {
    if rs == [] then []
    else ReadOutput(uuid, m, rs[0]) + ReadsOutput(uuid, AfterRead(uuid, m, rs[0]), rs[1..])
  }

  function Arrived(rs: seq<Read>): bytes {
    if rs == [] then [] else Concat(rs[0].chunks) + Arrived(rs[1..])
  }

  // ---- When the flag update takes the middle of a header for the end of a block ----

  /** A read that stops k bytes into the terminal header h, with only zero length bytes so far. */
  predicate Misfires(h: bytes, k: int)
    requires |h| == 5
  {
    1 <= k <= 4 && forall j :: 1 <= j < k ==> h[j] == 0
  }

  /**
   * No read that ends before the `len` bytes of the padded stream are through stops at a misfiring place of its terminal
   * header h, which starts `pos` bytes from here.
   */
  predicate CleanCuts(h: bytes, pos: int, len: nat, rs: seq<Read>)
    requires |h| == 5
    decreases |rs|
  {
    rs != [] ==>
      var n := |Concat(rs[0].chunks)|;
      n < len ==> (n > 0 ==> !Misfires(h, n - pos)) && CleanCuts(h, pos - n, len - n, rs[1..])
  }

  /** Padding is left by a read that ends before the `len` bytes of the padded stream are through. */
  predicate LeavesEarly(uuid: bytes, m: Mode, len: nat, rs: seq<Read>)
    decreases |rs|
  {
    rs != [] &&
    var n := |Concat(rs[0].chunks)|;
    var m1 := AfterRead(uuid, m, rs[0]);
    n < len && (!m1.within || LeavesEarly(uuid, m1, len - n, rs[1..]))
  }

  /**
   * A chunk that begins behind the padded stream, of which `len` bytes are still to come, opens it again. In the read that
   * brings the stream's last byte every chunk can; later only one of a read that is still filtered, and none once direct.
   */
  predicate Reopens(uuid: bytes, direct: bool, len: nat, rs: seq<Read>)
    decreases |rs|
  {
    rs != [] &&
    var n := |Concat(rs[0].chunks)|;
    if len == 0 then (!direct && rs[0].filtering && Resyncs(uuid, 0, rs[0].chunks)) || Reopens(uuid, direct, 0, rs[1..])
    else if n < len then Reopens(uuid, direct, len - n, rs[1..])
    else Resyncs(uuid, len, rs[0].chunks) || Reopens(uuid, direct, 0, rs[1..])
  }

  /** The counters after k of the five header bytes. */
  lemma HeaderState(l: Link, h: bytes, k: nat)
    requires l.cmd == 5 && l.content <= 0 && l.padding <= 0 && |h| == 5 && 1 <= k <= 4
    ensures After(l, h[..k]).current == h[0]
    ensures (After(l, h[..k]).content <= 0 && After(l, h[..k]).padding <= 0) <==> Misfires(h, k)
  {
    var l1 := Link(4, l.content, l.padding, h[0]);
    var l2 := Link(3, U16(h[1], 0), l.padding, h[0]);
    var l3 := Link(2, U16(h[1], h[2]), l.padding, h[0]);
    var l4 := Link(1, U16(h[1], h[2]), U16(h[3], 0), h[0]);
    FeedHeaderByte(l, h[..k]);
    assert h[..k][1..] == h[1..k];
    if k >= 2 {
      FeedHeaderByte(l1, h[1..k]);
      assert h[1..k][1..] == h[2..k];
    }
    if k >= 3 {
      FeedHeaderByte(l2, h[2..k]);
      assert h[2..k][1..] == h[3..k];
    }
    if k >= 4 {
      FeedHeaderByte(l3, h[3..k]);
      assert h[3..k][1..] == [];
    }
  }

  /** In a block body some content or padding is always still expected, and the command stays. */
  lemma {:induction false} BodyState(l: Link, b: bytes)
    requires l.cmd == 0 && l.content >= 0 && l.padding >= 0 && |b| < l.content + l.padding
    ensures var m := After(l, b); m.content >= 0 && m.padding >= 0 && m.content + m.padding > 0 && m.current == l.current
    decreases |b|
  {
    if b != [] {
      BodyState(l.Step(b[0]), b[1..]);
    }
  }

  /** After a non-empty proper prefix of a block: its command is current; the lengths look exhausted only at a misfiring place. */
  lemma BlockState(l: Link, b: Block, k: nat)
    requires l.cmd == 5 && l.content <= 0 && l.padding <= 0 && b.Fits() && 0 < k < |EncodeBlock(b)|
    ensures var m := After(l, EncodeBlock(b)[..k]);
            m.current == b.command && ((m.content <= 0 && m.padding <= 0) <==> Misfires(HeaderOf(b), k))
  {
    var e, h, body := EncodeBlock(b), HeaderOf(b), b.content + b.padding;
    if k < 5 {
      assert e[..k] == h[..k];
      HeaderState(l, h, k);
    } else {
      assert e[..k] == h + body[..k - 5];
      FeedBlockHeader(l, b);
      FeedAppend(l, h, body[..k - 5]);
      BodyState(BodyOf(b), body[..k - 5]);
    }
  }

  /** Throughout Continue blocks the current command is Continue. */
  lemma {:induction false} ContinuesState(l: Link, blocks: seq<Block>, k: nat)
    requires l.cmd == 5 && l.content <= 0 && l.padding <= 0 && l.current == 0
    requires AllContinue(blocks) && k <= |EncodeBlocks(blocks)|
    ensures After(l, EncodeBlocks(blocks)[..k]).current == 0
    decreases |blocks|
  {
    if blocks != [] && k > 0 {
      var e, rest := EncodeBlock(blocks[0]), EncodeBlocks(blocks[1..]);
      if k < |e| {
        assert (e + rest)[..k] == e[..k];
        BlockState(l, blocks[0], k);
      } else {
        assert (e + rest)[..k] == e + rest[..k - |e|];
        FeedBlock(l, blocks[0]);
        FeedAppend(l, e, rest[..k - |e|]);
        ContinuesState(AfterBlock(0), blocks[1..], k - |e|);
      }
    }
  }

  /** n bytes into a terminated stream the update leaves padding exactly at the misfiring places of the terminal header. */
  lemma UpdateInside(l: Link, blocks: seq<Block>, n: nat)
    requires l.cmd == 5 && l.content <= 0 && l.padding <= 0 && l.current == 0 && Terminated(blocks)
    requires blocks[|blocks| - 1].command <= 2 && n < |EncodeBlocks(blocks)|
    ensures var last := blocks[|blocks| - 1];
            var m := Update(After(l, EncodeBlocks(blocks)[..n]), true);
            !m.within <==> Misfires(HeaderOf(last), n - |EncodeBlocks(blocks[..|blocks| - 1])|)
    ensures var m := Update(After(l, EncodeBlocks(blocks)[..n]), true); m.within ==> !m.direct
  {
    var init, last := blocks[..|blocks| - 1], blocks[|blocks| - 1];
    assert blocks == init + [last];
    EncodeBlocksSnoc(init, last);
    var p, e := EncodeBlocks(init), EncodeBlock(last);
    if n <= |p| {
      assert (p + e)[..n] == p[..n];
      ContinuesState(l, init, n);
    } else {
      var k := n - |p|;
      assert (p + e)[..n] == p + e[..k];
      FeedAppend(l, p, e[..k]);
      AfterContinues(l, init);
      BlockState(After(l, p), last, k);
    }
  }

  lemma AfterContinues(l: Link, blocks: seq<Block>)
    requires l.cmd == 5 && l.content <= 0 && l.padding <= 0 && AllContinue(blocks)
    ensures var m := After(l, EncodeBlocks(blocks)); m.cmd == 5 && m.content <= 0 && m.padding <= 0
  {
    if blocks != [] {
      FeedContinues(l, blocks);
    }
  }

  /**
   * From the state l the stream s ends with command c, not before its last byte, and between two reads the flag update
   * leaves padding exactly at the misfiring places of the terminal header h, which starts pos bytes from here.
   */
  ghost predicate Stops(l: Link, s: bytes, h: bytes, pos: int, c: byte)
    requires |h| == 5
  {
    && BusyThrough(l, s)
    && After(l, s) == Link(-1, -1, -1, c)
    && (forall n :: 0 < n < |s| ==>
          var m := Update(After(l, s[..n]), true);
          (!m.within <==> Misfires(h, n - pos)) && (m.within ==> !m.direct))
  }

  lemma StopsTail(l: Link, s: bytes, h: bytes, pos: int, c: byte, n: nat)
    requires |h| == 5 && Stops(l, s, h, pos, c) && n <= |s|
    ensures Stops(After(l, s[..n]), s[n..], h, pos - n, c)
  {
    BusyTail(l, s, n);
    FeedAppend(l, s[..n], s[n..]);
    assert s[..n] + s[n..] == s;
    forall k | 0 < k < |s| - n
      ensures var m := Update(After(After(l, s[..n]), s[n..][..k]), true);
              (!m.within <==> Misfires(h, k - (pos - n))) && (m.within ==> !m.direct)
    {
      assert s[..n + k] == s[..n] + s[n..][..k];
      FeedAppend(l, s[..n], s[n..][..k]);
      assert (n + k) - pos == k - (pos - n);
    }
  }

  lemma StopsBlocks(l: Link, blocks: seq<Block>)
    requires l.cmd == 5 && l.content <= 0 && l.padding <= 0 && l.current == 0 && Terminated(blocks)
    requires blocks[|blocks| - 1].command <= 2
    ensures var last := blocks[|blocks| - 1];
            Stops(l, EncodeBlocks(blocks), HeaderOf(last), |EncodeBlocks(blocks[..|blocks| - 1])|, last.command)
  {
    FeedTerminated(l, blocks);
    forall n | 0 < n < |EncodeBlocks(blocks)|
      ensures var m := Update(After(l, EncodeBlocks(blocks)[..n]), true);
              && (!m.within <==> Misfires(HeaderOf(blocks[|blocks| - 1]), n - |EncodeBlocks(blocks[..|blocks| - 1])|))
              && (m.within ==> !m.direct)
    {
      UpdateInside(l, blocks, n);
    }
  }

  /** Reading never makes bytes. */
  lemma {:induction false} ReadsShrink(uuid: bytes, m: Mode, rs: seq<Read>)
    requires m.link.Valid()
    ensures |ReadsOutput(uuid, m, rs)| <= |Arrived(rs)|
    decreases |rs|
  {
    if rs != [] {
      ChunksShrink(uuid, m.link, rs[0].chunks);
      ChunksValid(uuid, m.link, rs[0].chunks);
      ReadsShrink(uuid, AfterRead(uuid, m, rs[0]), rs[1..]);
    }
  }

  lemma {:induction false} ChunksValid(uuid: bytes, l: Link, chunks: seq<bytes>)
    requires l.Valid()
    ensures AfterChunks(uuid, l, chunks).Valid()
    decreases |chunks|
  {
    if chunks != [] {
      var c := chunks[0];
      if l.Initial() && Opens(uuid, c) {
        FeedValid(l.(cmd := 5), c[16..]);
      } else {
        FeedValid(l, c);
      }
      ChunksValid(uuid, AfterChunk(uuid, l, c), chunks[1..]);
    }
  }

  /** The mode behind a padded stream that ended with command c. */
  function Ended(c: byte): Mode {
    Mode(Link(-1, -1, -1, c), false, c == 2)
  }

  /** Behind the padded stream reads are delivered as they arrive exactly when none opens it again. */
  lemma {:induction false} BehindEnd(uuid: bytes, c: byte, rs: seq<Read>)
    requires 1 <= c <= 2
    ensures ReadsOutput(uuid, Ended(c), rs) == Arrived(rs) <==> !Reopens(uuid, c == 2, 0, rs)
    ensures Reopens(uuid, c == 2, 0, rs) ==> |ReadsOutput(uuid, Ended(c), rs)| < |Arrived(rs)|
    ensures !Reopens(uuid, c == 2, 0, rs) ==> AfterReads(uuid, Ended(c), rs) == Ended(c)
    decreases |rs|
  {
    if rs != [] {
      var m, r, rest := Ended(c), rs[0], rs[1..];
      var m1 := AfterRead(uuid, m, r);
      ReadBehind(uuid, c, r);
      if m1 == m {
        BehindEnd(uuid, c, rest);
      }
      ReadValid(uuid, m, r);
      ReadsShrink(uuid, m1, rest);
      CancelFront(Concat(r.chunks), ReadsOutput(uuid, m1, rest), Arrived(rest));
    }
  }

  lemma ReadBehind(uuid: bytes, c: byte, r: Read)
    requires 1 <= c <= 2
    ensures var reopened := c != 2 && r.filtering && Resyncs(uuid, 0, r.chunks);
            && (!reopened ==> AfterRead(uuid, Ended(c), r) == Ended(c) && ReadOutput(uuid, Ended(c), r) == Concat(r.chunks))
            && (reopened ==> |ReadOutput(uuid, Ended(c), r)| < |Concat(r.chunks)|)
  {
    PassThrough(uuid, Link(-1, -1, -1, c), r.chunks);
  }

  lemma ReadValid(uuid: bytes, m: Mode, r: Read)
    requires m.link.Valid()
    ensures AfterRead(uuid, m, r).link.Valid()
  {
    ChunksValid(uuid, m.link, r.chunks);
  }

  /** The read that brings the last byte of the stream s, and the first bytes t behind it. */
  lemma CrossingRead(uuid: bytes, l: Link, r: Read, s: bytes, t: bytes, c: byte)
    requires BusyThrough(l, s) && s != [] && After(l, s) == Link(-1, -1, -1, c) && 1 <= c <= 2 && Concat(r.chunks) == s + t
    ensures var m := Mode(l, true, false);
            && (!Resyncs(uuid, |s|, r.chunks) ==> AfterRead(uuid, m, r) == Ended(c) && ReadOutput(uuid, m, r) == Output(l, s) + t)
            && (Resyncs(uuid, |s|, r.chunks) ==> |ReadOutput(uuid, m, r)| < |Output(l, s)| + |t|)
  {
    ChunksAcrossEnd(uuid, l, r.chunks, s, t);
  }

  /** What a run of reads does with the rest s of a padded stream and the bytes behind it. */
  ghost predicate Crosses(uuid: bytes, l: Link, s: bytes, tail: bytes, h: bytes, pos: int, c: byte, rs: seq<Read>)
    requires |h| == 5
  {
    var m := Mode(l, true, false);
    && (LeavesEarly(uuid, m, |s|, rs) <==> !CleanCuts(h, pos, |s|, rs))
    && (!LeavesEarly(uuid, m, |s|, rs) ==>
        && (ReadsOutput(uuid, m, rs) == Output(l, s) + tail <==> !Reopens(uuid, c == 2, |s|, rs))
        && (Reopens(uuid, c == 2, |s|, rs) ==> |ReadsOutput(uuid, m, rs)| < |Output(l, s)| + |tail|)
        && (!Reopens(uuid, c == 2, |s|, rs) ==> AfterReads(uuid, m, rs) == Ended(c)))
  }

  /** A run of reads that brings the rest of a stream and whatever comes behind it. */
  lemma {:induction false} ReadsAcross(uuid: bytes, l: Link, s: bytes, tail: bytes, h: bytes, pos: int, c: byte, rs: seq<Read>)
    requires |h| == 5 && l.Valid() && Stops(l, s, h, pos, c) && 1 <= c <= 2
    requires s != [] && Arrived(rs) == s + tail
    ensures Crosses(uuid, l, s, tail, h, pos, c, rs)
    decreases |rs|
  {
    var first, rest := Concat(rs[0].chunks), rs[1..];
    if |first| < |s| {
      SplitTwice(s, tail, first, Arrived(rest));
      ReadBefore(uuid, l, s, tail, h, pos, c, rs);
    } else {
      SplitTwice(first, Arrived(rest), s, tail);
      CrossesHere(uuid, l, s, first[|s|..], h, pos, c, rs);
    }
  }

  /** The step of ReadsAcross for the read with the last byte. */
  lemma CrossesHere(uuid: bytes, l: Link, s: bytes, t: bytes, h: bytes, pos: int, c: byte, rs: seq<Read>)
    requires |h| == 5 && l.Valid() && Stops(l, s, h, pos, c) && 1 <= c <= 2
    requires s != [] && rs != [] && Concat(rs[0].chunks) == s + t
    ensures Crosses(uuid, l, s, t + Arrived(rs[1..]), h, pos, c, rs)
  {
    var m, r, rest := Mode(l, true, false), rs[0], rs[1..];
    var m1, o := AfterRead(uuid, m, r), Output(l, s);
    CrossingRead(uuid, l, r, s, t, c);
    ReadValid(uuid, m, r);
    ReadsShrink(uuid, m1, rest);
    hide Stops, Output, AfterRead, ReadOutput, Resyncs;
    if m1 == Ended(c) {
      BehindEnd(uuid, c, rest);
    }
    Assoc(o, t, Arrived(rest));
    CancelFront(o + t, ReadsOutput(uuid, m1, rest), Arrived(rest));
  }

  /** The step of ReadsAcross for a read that ends inside the stream. */
  lemma {:induction false} ReadBefore(uuid: bytes, l: Link, s: bytes, tail: bytes, h: bytes, pos: int, c: byte, rs: seq<Read>)
    requires |h| == 5 && l.Valid() && Stops(l, s, h, pos, c) && 1 <= c <= 2 && rs != []
    requires var n := |Concat(rs[0].chunks)|;
             n < |s| && Concat(rs[0].chunks) == s[..n] && Arrived(rs[1..]) == s[n..] + tail
    ensures Crosses(uuid, l, s, tail, h, pos, c, rs)
    decreases |rs|, 0
  {
    var m, first := Mode(l, true, false), Concat(rs[0].chunks);
    var n := |first|;
    var s' := s[n..];
    ReadStep(uuid, l, rs[0], s);
    StopsTail(l, s, h, pos, c, n);
    FeedAppend(l, first, s');
    FeedValid(l, first);
    assert first + s' == s;
    var m1 := AfterRead(uuid, m, rs[0]);
    assert n > 0 ==> (!m1.within <==> Misfires(h, n - pos));
    assert m1.within ==> m1 == Mode(After(l, first), true, false);
    hide Stops, After, Output, AfterRead, ReadOutput, Resyncs, Misfires, Update, BusyThrough;
    if m1.within {
      ReadsAcross(uuid, After(l, first), s', tail, h, pos - n, c, rs[1..]);
      var o1, o2 := Output(l, first), Output(After(l, first), s');
      Assoc(o1, o2, tail);
      CancelFront(o1, ReadsOutput(uuid, m1, rs[1..]), o2 + tail);
    }
  }

  /** One read inside the stream s is the automaton on its bytes. */
  lemma ReadStep(uuid: bytes, l: Link, r: Read, s: bytes)
    requires BusyThrough(l, s) && |Concat(r.chunks)| <= |s| && Concat(r.chunks) == s[..|Concat(r.chunks)|]
    ensures var m := Mode(l, true, false);
            && AfterRead(uuid, m, r) == (if Concat(r.chunks) == [] then m else Update(After(l, Concat(r.chunks)), true))
            && ReadOutput(uuid, m, r) == Output(l, Concat(r.chunks))
  {
    var c := Concat(r.chunks);
    assert s == c + s[|c|..];
    BusyPrefix(l, c, s[|c|..]);
    ChunksInside(uuid, l, r.chunks);
  }

  /**
   * Handover. For every stream that ends with an End or Direct block, whatever follows it and however all of it arrives,
   * the first chunk having at least 21 bytes: the reader stays in padding until the read that brings the last byte if and
   * only if no earlier read stops inside the terminal header after nothing but zero length bytes. Then it has delivered
   * exactly the contents and what followed if and only if no chunk opened the stream again; and it has left padding and
   * turned on direct copy exactly for Direct.
   */
  lemma Handover(uuid: bytes, blocks: seq<Block>, tail: bytes, rs: seq<Read>)
    requires |uuid| == 16 && Terminated(blocks) && blocks[|blocks| - 1].command <= 2
    requires rs != [] && rs[0].chunks != [] && |rs[0].chunks[0]| >= 21
    requires Arrived(rs) == uuid + (EncodeBlocks(blocks) + tail)
    ensures var last := blocks[|blocks| - 1];
            var pos, len := 16 + |EncodeBlocks(blocks[..|blocks| - 1])|, 16 + |EncodeBlocks(blocks)|;
            && (LeavesEarly(uuid, START, len, rs) <==> !CleanCuts(HeaderOf(last), pos, len, rs))
            && (!LeavesEarly(uuid, START, len, rs) ==>
                && (ReadsOutput(uuid, START, rs) == Contents(blocks) + tail <==> !Reopens(uuid, last.command == 2, len, rs))
                && (!Reopens(uuid, last.command == 2, len, rs) ==> AfterReads(uuid, START, rs) == Ended(last.command)))
  {
    var last, pos := blocks[|blocks| - 1], |EncodeBlocks(blocks[..|blocks| - 1])|;
    hide EncodeBlocks, Contents, After, Output, Stops, AfterReads, ReadsOutput, LeavesEarly, CleanCuts, Reopens;
    StopsBlocks(Link(5, -1, -1, 0), blocks);
    FeedTerminated(Link(5, -1, -1, 0), blocks);
    StreamHandover(uuid, EncodeBlocks(blocks), tail, HeaderOf(last), pos, last.command, rs);
  }

  /** A reader before its first read. */
  const START := Mode(Link(-1, -1, -1, 0), true, false)

  /** The handover of any byte stream with a terminal header h that starts pos bytes behind the UUID. */
  lemma StreamHandover(uuid: bytes, e: bytes, tail: bytes, h: bytes, pos: nat, c: byte, rs: seq<Read>)
    requires |uuid| == 16 && |h| == 5 && Stops(Link(5, -1, -1, 0), e, h, pos, c) && 1 <= c <= 2
    requires rs != [] && rs[0].chunks != [] && |rs[0].chunks[0]| >= 21 && Arrived(rs) == uuid + (e + tail)
    ensures var len := 16 + |e|;
            && (LeavesEarly(uuid, START, len, rs) <==> !CleanCuts(h, 16 + pos, len, rs))
            && (!LeavesEarly(uuid, START, len, rs) ==>
                && (ReadsOutput(uuid, START, rs) == Output(Link(5, -1, -1, 0), e) + tail <==> !Reopens(uuid, c == 2, len, rs))
                && (!Reopens(uuid, c == 2, len, rs) ==> AfterReads(uuid, START, rs) == Ended(c)))
  {
    var shifted := Shift(uuid, e, tail, h, pos, c == 2, rs);
    ReadsAcross(uuid, Link(5, -1, -1, 0), e, tail, h, pos, c, shifted);
  }

  /** The first read of a padded stream only loses the UUID. */
  lemma Shift(uuid: bytes, e: bytes, tail: bytes, h: bytes, pos: nat, direct: bool, rs: seq<Read>) returns (shifted: seq<Read>)
    requires |uuid| == 16 && |h| == 5 && e != []
    requires rs != [] && rs[0].chunks != [] && |rs[0].chunks[0]| >= 21 && Arrived(rs) == uuid + (e + tail)
    ensures var m, len := Mode(Link(5, -1, -1, 0), true, false), 16 + |e|;
            && Arrived(shifted) == e + tail
            && LeavesEarly(uuid, m, |e|, shifted) == LeavesEarly(uuid, START, len, rs)
            && CleanCuts(h, pos, |e|, shifted) == CleanCuts(h, 16 + pos, len, rs)
            && Reopens(uuid, direct, |e|, shifted) == Reopens(uuid, direct, len, rs)
            && ReadsOutput(uuid, m, shifted) == ReadsOutput(uuid, START, rs)
            && AfterReads(uuid, m, shifted) == AfterReads(uuid, START, rs)
  {
    var rest := rs[1..];
    var c0 := Concat(rs[0].chunks);
    SplitTwice(c0, Arrived(rest), uuid, e + tail);
    var first := ShiftRead(uuid, rs[0], c0[16..], |e|);
    hide AfterRead, ReadOutput, Resyncs, Concat;
    shifted := [first] + rest;
    assert shifted[1..] == rest;
    assert |c0[16..]| - pos == |c0| - (16 + pos) && pos - |c0[16..]| == 16 + pos - |c0|;
  }

  lemma ShiftRead(uuid: bytes, r: Read, stream: bytes, n: nat) returns (first: Read)
    requires |uuid| == 16 && r.chunks != [] && |r.chunks[0]| >= 21 && Concat(r.chunks) == uuid + stream && n > 0
    ensures var m := Mode(Link(5, -1, -1, 0), true, false);
            && first.filtering == r.filtering && Concat(first.chunks) == stream
            && AfterRead(uuid, START, r) == AfterRead(uuid, m, first) && ReadOutput(uuid, START, r) == ReadOutput(uuid, m, first)
            && Resyncs(uuid, 16 + n, r.chunks) == Resyncs(uuid, n, first.chunks)
  {
    assert |Concat(r.chunks)| >= |r.chunks[0]|;
    var inner := OpeningChunk(uuid, Link(-1, -1, -1, 0), r.chunks, stream, n);
    hide AfterChunks, ChunksOutput, Resyncs, Update;
    first := Read(inner, r.filtering);
  }

  /** After the handover every read is delivered as it arrives. */
  lemma {:induction false} RawAfterHandover(uuid: bytes, m: Mode, rs: seq<Read>)
    requires m.direct
    ensures AfterReads(uuid, m, rs) == m && ReadsOutput(uuid, m, rs) == Arrived(rs)
    decreases |rs|
  {
    if rs != [] {
      RawAfterHandover(uuid, m, rs[1..]);
    }
  }

  // ---- What a reader delivers over a whole run ----

  /** The outputs of all reads, with the TLS layer's leftovers at the switch to raw copy. */
  function Delivered(uuid: bytes, m: Mode, rs: seq<Read>, leftovers: bytes): bytes
    decreases |rs|
  {
    if rs == [] then []
    else
      var m1 := AfterRead(uuid, m, rs[0]);
      (ReadOutput(uuid, m, rs[0]) + if m1.direct && !m.direct then leftovers else []) + Delivered(uuid, m1, rs[1..], leftovers)
  }

  lemma {:induction false} AfterReadsAppend(uuid: bytes, m: Mode, a: seq<Read>, b: seq<Read>)
    ensures AfterReads(uuid, m, a + b) == AfterReads(uuid, AfterReads(uuid, m, a), b)
    decreases |a|
  {
    if a == [] {
      assert a + b == b;
    } else {
      assert (a + b)[1..] == a[1..] + b;
      AfterReadsAppend(uuid, AfterRead(uuid, m, a[0]), a[1..], b);
    }
  }

  lemma {:induction false} DeliveredAppend(uuid: bytes, m: Mode, a: seq<Read>, b: seq<Read>, leftovers: bytes)
    ensures Delivered(uuid, m, a + b, leftovers) == Delivered(uuid, m, a, leftovers) + Delivered(uuid, AfterReads(uuid, m, a), b, leftovers)
    decreases |a|
  {
    if a == [] {
      assert a + b == b;
    } else {
      assert (a + b)[1..] == a[1..] + b;
      var m1 := AfterRead(uuid, m, a[0]);
      DeliveredAppend(uuid, m1, a[1..], b, leftovers);
      Assoc(ReadOutput(uuid, m, a[0]) + (if m1.direct && !m.direct then leftovers else []),
            Delivered(uuid, m1, a[1..], leftovers), Delivered(uuid, AfterReads(uuid, m, a), b, leftovers));
    }
  }

  /** Without a switch a run delivers its outputs. */
  lemma {:induction false} DeliveredPlain(uuid: bytes, m: Mode, rs: seq<Read>, leftovers: bytes)
    requires !AfterReads(uuid, m, rs).direct || m.direct
    ensures Delivered(uuid, m, rs, leftovers) == ReadsOutput(uuid, m, rs)
    decreases |rs|
  {
    if rs != [] {
      var m1 := AfterRead(uuid, m, rs[0]);
      if m1.direct {
        DirectStays(uuid, m1, rs[1..]);
      }
      NilRight(ReadOutput(uuid, m, rs[0]));
      DeliveredPlain(uuid, m1, rs[1..], leftovers);
    }
  }

  lemma {:induction false} DirectStays(uuid: bytes, m: Mode, rs: seq<Read>)
    requires m.direct
    ensures AfterReads(uuid, m, rs) == m
    decreases |rs|
  {
    if rs != [] {
      DirectStays(uuid, m, rs[1..]);
    }
  }

  lemma {:induction false} ReadsOutputAppend(uuid: bytes, m: Mode, a: seq<Read>, b: seq<Read>)
    ensures ReadsOutput(uuid, m, a + b) == ReadsOutput(uuid, m, a) + ReadsOutput(uuid, AfterReads(uuid, m, a), b)
    decreases |a|
  {
    if a == [] {
      assert a + b == b;
    } else {
      assert (a + b)[1..] == a[1..] + b;
      var m1 := AfterRead(uuid, m, a[0]);
      ReadsOutputAppend(uuid, m1, a[1..], b);
      Assoc(ReadOutput(uuid, m, a[0]), ReadsOutput(uuid, m1, a[1..]), ReadsOutput(uuid, AfterReads(uuid, m, a), b));
    }
  }

  /** Before the read that brings the last byte a reader that does not leave early is in padding and not direct. */
  lemma {:induction false} StaysWithin(uuid: bytes, m: Mode, len: nat, init: seq<Read>, last: Read)
    requires m.within && !m.direct && |Arrived(init)| < len && !LeavesEarly(uuid, m, len, init + [last])
    ensures AfterReads(uuid, m, init).within && !AfterReads(uuid, m, init).direct
    decreases |init|
  {
    if init != [] {
      var rs := init + [last];
      assert rs[0] == init[0] && rs[1..] == init[1..] + [last];
      var n, m1 := |Concat(init[0].chunks)|, AfterRead(uuid, m, init[0]);
      assert |Arrived(init)| == n + |Arrived(init[1..])|;
      StaysWithin(uuid, m1, len - n, init[1..], last);
    }
  }

  /**
   * A whole run to raw copy. The reads up to the one that brings the Direct block's last byte (and perhaps bytes t behind
   * it), then raw reads: what is delivered is the contents, t, the TLS layer's leftovers, and the raw bytes, in that order.
   */
  lemma DirectRun(uuid: bytes, blocks: seq<Block>, t: bytes, init: seq<Read>, last: Read, raw: seq<Read>, leftovers: bytes)
    requires |uuid| == 16 && Terminated(blocks) && blocks[|blocks| - 1].command == 2
    requires var rs, len := init + [last], 16 + |EncodeBlocks(blocks)|;
             && rs[0].chunks != [] && |rs[0].chunks[0]| >= 21
             && Arrived(rs) == uuid + (EncodeBlocks(blocks) + t) && |Arrived(init)| < len
             && CleanCuts(HeaderOf(blocks[|blocks| - 1]), 16 + |EncodeBlocks(blocks[..|blocks| - 1])|, len, rs)
             && !Reopens(uuid, true, len, rs)
    ensures AfterReads(uuid, START, (init + [last]) + raw) == Ended(2)
    ensures Delivered(uuid, START, (init + [last]) + raw, leftovers) == (Contents(blocks) + t) + leftovers + Arrived(raw)
  {
    var rs, len := init + [last], 16 + |EncodeBlocks(blocks)|;
    Handover(uuid, blocks, t, rs);
    StaysWithin(uuid, START, len, init, last);
    hide EncodeBlocks, Contents, HeaderOf, CleanCuts, Reopens, LeavesEarly, Arrived, AfterRead, ReadOutput, Terminated;
    var m := AfterReads(uuid, START, init);
    AfterReadsAppend(uuid, START, init, [last]);
    AfterReadsAppend(uuid, START, rs, raw);
    RawAfterHandover(uuid, Ended(2), raw);
    LastSwitches(uuid, START, init, last, leftovers);
    DeliveredAppend(uuid, START, rs, raw, leftovers);
    DeliveredPlain(uuid, Ended(2), raw, leftovers);
  }

  /** A run whose last read makes the switch delivers its outputs, and then the leftovers. */
  lemma LastSwitches(uuid: bytes, m: Mode, init: seq<Read>, last: Read, leftovers: bytes)
    requires !AfterReads(uuid, m, init).direct && AfterReads(uuid, m, init + [last]).direct
    ensures Delivered(uuid, m, init + [last], leftovers) == ReadsOutput(uuid, m, init + [last]) + leftovers
  {
    var m1 := AfterReads(uuid, m, init);
    AfterReadsAppend(uuid, m, init, [last]);
    DeliveredAppend(uuid, m, init, [last], leftovers);
    ReadsOutputAppend(uuid, m, init, [last]);
    DeliveredPlain(uuid, m, init, leftovers);
    var one: seq<Read> := [last];
    assert one[1..] == [];
    var o := ReadOutput(uuid, m1, last);
    assert AfterReads(uuid, m1, one) == AfterRead(uuid, m1, last);
    NilRight(o + leftovers);
    NilRight(o);
    assert Delivered(uuid, m1, one, leftovers) == o + leftovers && ReadsOutput(uuid, m1, one) == o;
    Assoc(ReadsOutput(uuid, m, init), o, leftovers);
  }

  /** A whole run past an End block: the contents and everything behind it, and no leftovers are taken. */
  lemma EndRun(uuid: bytes, blocks: seq<Block>, tail: bytes, rs: seq<Read>, leftovers: bytes)
    requires |uuid| == 16 && Terminated(blocks) && blocks[|blocks| - 1].command == 1
    requires rs != [] && rs[0].chunks != [] && |rs[0].chunks[0]| >= 21
    requires Arrived(rs) == uuid + (EncodeBlocks(blocks) + tail)
    requires var len := 16 + |EncodeBlocks(blocks)|;
             && CleanCuts(HeaderOf(blocks[|blocks| - 1]), 16 + |EncodeBlocks(blocks[..|blocks| - 1])|, len, rs)
             && !Reopens(uuid, false, len, rs)
    ensures AfterReads(uuid, START, rs) == Ended(1) && Delivered(uuid, START, rs, leftovers) == Contents(blocks) + tail
  {
    Handover(uuid, blocks, tail, rs);
    hide EncodeBlocks, Contents, HeaderOf, CleanCuts, Reopens, LeavesEarly, Arrived, Terminated;
    DeliveredPlain(uuid, START, rs, leftovers);
  }

  /** The hypothesis is needed: a Direct block cut after its command byte switches to raw copy too early. */
  lemma CutAfterCommandMisfires(uuid: bytes)
    requires |uuid| == 16
    ensures var first := Read([uuid + [0, 0, 0, 0, 0, 2]], true);
            AfterRead(uuid, Mode(Link(-1, -1, -1, 0), true, false), first).direct
  {
    var c: bytes := uuid + [0, 0, 0, 0, 0, 2];
    var zeros: bytes := [0, 0, 0, 0, 0];
    var l, l5 := Link(-1, -1, -1, 0), Link(5, -1, -1, 0);
    ConcatSnoc([], c);
    assert [] + [c] == [c];
    assert AfterChunks(uuid, l, [c]) == AfterChunks(uuid, AfterChunk(uuid, l, c), [c][1..]) == AfterChunk(uuid, l, c);
    assert c[..16] == uuid && c[16..] == zeros + [2];
    FeedHeader(l5, zeros);
    FeedAppend(l5, zeros, [2]);
    FeedHeaderByte(Link(5, 0, 0, 0), [2]);
    assert After(l5, zeros + [2]) == Link(4, 0, 0, 2);
  }

  // ---- The reader ----

  lemma {:induction false} AfterChunksSnoc(uuid: bytes, l: Link, chunks: seq<bytes>, c: bytes)
    ensures AfterChunks(uuid, l, chunks + [c]) == AfterChunk(uuid, AfterChunks(uuid, l, chunks), c)
    ensures ChunksOutput(uuid, l, chunks + [c]) == ChunksOutput(uuid, l, chunks) + ChunkOutput(uuid, AfterChunks(uuid, l, chunks), c)
    decreases |chunks|
  {
    var all := chunks + [c];
    if chunks == [] {
      assert all == [c] && all[1..] == [];
      assert ChunksOutput(uuid, l, all) == ChunkOutput(uuid, l, c) + [];
    } else {
      assert all[1..] == chunks[1..] + [c] && all[0] == chunks[0];
      AfterChunksSnoc(uuid, AfterChunk(uuid, l, chunks[0]), chunks[1..], c);
    }
  }

  class VisionReader {
    const traffic: TrafficState
    const isUplink: bool
    var input: Option<bytes>
    var rawInput: Option<bytes>
    /** History: the reads so far and the mode before them, what was delivered, and the leftovers taken over. */
    ghost const start: Mode
    ghost var log: seq<Read>
    ghost var delivered: bytes
    ghost var leftovers: bytes

    /** The memory readers are gone exactly when direct copy is on, so they are handed over at most once. */
    ghost predicate Ready()
      reads this, traffic
    {
      && traffic.Valid()
      && (traffic.Reading(isUplink).readerDirect <==> input.None?)
      && (traffic.Reading(isUplink).readerDirect <==> rawInput.None?)
    }

    /** The mode and everything delivered are those of the run of reads so far. */
    ghost predicate Logged(now: Mode)
      reads this
    {
      && !start.direct && now == AfterReads(traffic.userUUID, start, log)
      && delivered == Delivered(traffic.userUUID, start, log, leftovers)
      && (!now.direct ==> leftovers == [])
    }

    ghost predicate Valid()
      reads this, traffic
    {
      Ready() && Logged(Now())
    }

    ghost function Now(): Mode
      reads this, traffic
    {
      var e := traffic.Reading(isUplink);
      Mode(e.link, e.withinPadding, e.readerDirect)
    }

    constructor (traffic: TrafficState, isUplink: bool, input: bytes, rawInput: bytes)
      requires traffic.Valid() && !traffic.Reading(isUplink).readerDirect
      ensures Valid() && this.traffic == traffic && this.isUplink == isUplink
      ensures this.input == Some(input) && this.rawInput == Some(rawInput)
      ensures log == [] && delivered == [] && start == Now()
    {
      var e := traffic.Reading(isUplink);
      start := Mode(e.link, e.withinPadding, e.readerDirect);
      log, delivered, leftovers := [], [], [];
      this.traffic, this.isUplink := traffic, isUplink;
      this.input, this.rawInput := Some(input), Some(rawInput);
    }

    /** One entry of the list is unpadded and, unless it became empty, stored behind the entries kept so far. */
    method CompactEntry(buffer: array<bytes>, read: nat, kept: nat) returns (kept': nat)
      requires traffic.Valid() && kept <= read < buffer.Length && |buffer[read]| <= SIZE
      modifies traffic`inbound, traffic`outbound, buffer
      ensures traffic.Valid() && kept <= kept' <= read + 1
      ensures traffic.Reading(isUplink) ==
              old(traffic.Reading(isUplink)).(link := AfterChunk(traffic.userUUID, old(Now()).link, old(buffer[read])))
      ensures traffic.Writing(isUplink) == old(traffic.Writing(isUplink))
      ensures var o := ChunkOutput(traffic.userUUID, old(Now()).link, old(buffer[read]));
              buffer[..kept'] == old(buffer[..kept]) + (if o == [] then [] else [o])
      ensures buffer[read + 1..] == old(buffer[read + 1..])
    {
      var newbuffer := traffic.XtlsUnpadding(buffer[read], isUplink);
      kept' := kept;
      if |newbuffer| > 0 {
        buffer[kept] := newbuffer;
        kept' := kept + 1;
      }
    }

    /**
     * The list handed over by the underlying reader is unpadded entry by entry and compacted in place: the write index
     * never passes the read index, so no entry is overwritten before it is read.
     */
    method Compact(buffer: array<bytes>) returns (kept: nat)
      requires traffic.Valid() && forall i :: 0 <= i < buffer.Length ==> |buffer[i]| <= SIZE
      modifies traffic`inbound, traffic`outbound, buffer
      ensures traffic.Valid() && kept <= buffer.Length
      ensures [] !in buffer[..kept]
      ensures Concat(buffer[..kept]) == ChunksOutput(traffic.userUUID, old(Now()).link, old(buffer[..]))
      ensures traffic.Reading(isUplink) ==
              old(traffic.Reading(isUplink)).(link := AfterChunks(traffic.userUUID, old(Now()).link, old(buffer[..])))
      ensures traffic.Writing(isUplink) == old(traffic.Writing(isUplink))
    {
      hide AfterChunk, ChunkOutput;
      ghost var before := buffer[..];
      ghost var uuid, e0 := traffic.userUUID, traffic.Reading(isUplink);
      kept := 0;
      var read := 0;
      while read < buffer.Length
        invariant 0 <= kept <= read <= buffer.Length
        invariant buffer[read..] == before[read..]
        invariant [] !in buffer[..kept]
        invariant traffic.Valid()
        invariant traffic.Reading(isUplink) == e0.(link := AfterChunks(uuid, e0.link, before[..read]))
        invariant traffic.Writing(isUplink) == old(traffic.Writing(isUplink))
        invariant Concat(buffer[..kept]) == ChunksOutput(uuid, e0.link, before[..read])
      {
        assert buffer[read] == buffer[read..][0] == before[read];
        AfterChunksSnoc(uuid, e0.link, before[..read], before[read]);
        assert before[..read] + [before[read]] == before[..read + 1];
        ConcatSnoc(buffer[..kept], ChunkOutput(uuid, Now().link, before[read]));
        assert buffer[..kept] + [] == buffer[..kept];
        assert before[read..][1..] == before[read + 1..] && buffer[read..][1..] == buffer[read + 1..];
        kept := CompactEntry(buffer, read, kept);
        read := read + 1;
      }
      assert before[..read] == before;
    }

    /** The flag update after the buffers of one read have been unpadded. */
    method UpdateFlags()
      requires traffic.Valid() && !traffic.Reading(isUplink).readerDirect
      modifies traffic`inbound, traffic`outbound
      ensures traffic.Valid() && Now() == Update(old(Now()).link, old(Now()).within)
      ensures traffic.Writing(isUplink) == old(traffic.Writing(isUplink))
    {
      var e := traffic.Reading(isUplink);
      if e.link.content > 0 || e.link.padding > 0 || e.link.current == 0 {
        traffic.SetReading(isUplink, e.(withinPadding := true));
      } else if e.link.current == 1 {
        traffic.SetReading(isUplink, e.(withinPadding := false));
      } else if e.link.current == 2 {
        traffic.SetReading(isUplink, e.(withinPadding := false, readerDirect := true));
      }
    }

    /** The switch to raw copy: what the TLS layer still holds is appended, plain before raw, and given up. */
    method TakeOver(content: seq<bytes>) returns (out: seq<bytes>)
      requires input.Some? && rawInput.Some?
      modifies this`input, this`rawInput
      ensures Concat(out) == Concat(content) + (old(input).value + old(rawInput).value)
      ensures input.None? && rawInput.None?
    {
      // buf.ReadFrom: everything left in a memory reader, in pooled buffers
      var i, r := Chunked(input.value), Chunked(rawInput.value);
      ConcatAppend(i, r);
      ConcatAppend(content, i + r);
      out := content + (i + r);
      input, rawInput := None, None;
    }

    /** Unpadding, flag update and filtering of one read that is not empty and not yet direct. */
    method Process(buffer: array<bytes>) returns (out: seq<bytes>)
      requires Ready() && !Now().direct && forall i :: 0 <= i < buffer.Length ==> |buffer[i]| <= SIZE
      requires Concat(buffer[..]) != []
      modifies traffic, buffer
      ensures traffic.Valid()
      ensures Now() == AfterRead(traffic.userUUID, old(Now()), Read(old(buffer[..]), old(traffic.packetsToFilter) > 0))
      ensures Concat(out) == ReadOutput(traffic.userUUID, old(Now()), Read(old(buffer[..]), old(traffic.packetsToFilter) > 0))
      ensures traffic.Writing(isUplink) == old(traffic.Writing(isUplink))
    {
      out := buffer[..];
      if traffic.Reading(isUplink).withinPadding || traffic.packetsToFilter > 0 {
        var kept := Compact(buffer);
        out := buffer[..kept];
        UpdateFlags();
      }
      if traffic.packetsToFilter > 0 {
        traffic.XtlsFilterTls(out);
      }
    }

    /** One read: content first, then at the switch what the TLS layer still held, plain before raw. */
    method ReadOnce(buffer: array<bytes>) returns (out: seq<bytes>)
      requires Ready() && forall i :: 0 <= i < buffer.Length ==> |buffer[i]| <= SIZE
      modifies this`input, this`rawInput, traffic, buffer
      ensures Ready()
      ensures Now() == AfterRead(traffic.userUUID, old(Now()), Read(old(buffer[..]), old(traffic.packetsToFilter) > 0))
      ensures Concat(out) == ReadOutput(traffic.userUUID, old(Now()), Read(old(buffer[..]), old(traffic.packetsToFilter) > 0)) +
                             (if Now().direct && !old(Now().direct) then old(input).value + old(rawInput).value else [])
      ensures !Now().direct ==> input == old(input) && rawInput == old(rawInput)
      ensures traffic.Writing(isUplink) == old(traffic.Writing(isUplink))
    {
      out := buffer[..];
      if Concat(out) == [] || traffic.Reading(isUplink).readerDirect {
        assert Concat(out) + [] == Concat(out);
        return;
      }
      out := Process(buffer);
      if traffic.Reading(isUplink).readerDirect {
        out := TakeOver(out);
      } else {
        assert Concat(out) + [] == Concat(out);
      }
    }

    /**
     * ReadMultiBuffer: the read joins the run so far. So DirectRun and EndRun say what `delivered` is, whatever the reads
     * were and whatever the other direction's filter did in between.
     */
    method ReadMultiBuffer(buffer: array<bytes>) returns (out: seq<bytes>)
      requires Valid() && forall i :: 0 <= i < buffer.Length ==> |buffer[i]| <= SIZE
      modifies this, traffic, buffer
      ensures Valid() && log == old(log) + [Read(old(buffer[..]), old(traffic.packetsToFilter) > 0)]
      ensures delivered == old(delivered) + Concat(out)
      ensures Concat(out) == ReadOutput(traffic.userUUID, old(Now()), log[|log| - 1]) +
                             (if Now().direct && !old(Now().direct) then old(input).value + old(rawInput).value else [])
      ensures leftovers == if Now().direct && !old(Now().direct) then old(input).value + old(rawInput).value else old(leftovers)
      ensures !Now().direct ==> input == old(input) && rawInput == old(rawInput)
      ensures traffic.Writing(isUplink) == old(traffic.Writing(isUplink))
    {
      hide AfterReads, Delivered, AfterRead, ReadOutput;
      ghost var r, m := Read(buffer[..], traffic.packetsToFilter > 0), Now();
      ghost var held := if input.Some? && rawInput.Some? then input.value + rawInput.value else [];
      out := ReadOnce(buffer);
      ghost var taken := if Now().direct && !m.direct then held else leftovers;
      LogNext(traffic.userUUID, start, log, r, leftovers, taken);
      log, leftovers, delivered := log + [r], taken, delivered + Concat(out);
    }
  }

  /** One more read of a run. Leftovers that are not taken yet do not count. */
  lemma LogNext(uuid: bytes, m: Mode, log: seq<Read>, r: Read, leftovers: bytes, taken: bytes)
    requires !m.direct
    requires var m1 := AfterReads(uuid, m, log); m1.direct || !AfterRead(uuid, m1, r).direct ==> taken == leftovers
    ensures var m1 := AfterReads(uuid, m, log);
            var m2 := AfterRead(uuid, m1, r);
            && AfterReads(uuid, m, log + [r]) == m2
            && Delivered(uuid, m, log + [r], taken) ==
               Delivered(uuid, m, log, leftovers) + (ReadOutput(uuid, m1, r) + if m2.direct && !m1.direct then taken else [])
  {
    var m1 := AfterReads(uuid, m, log);
    var one: seq<Read> := [r];
    assert one[1..] == [];
    AfterReadsAppend(uuid, m, log, one);
    DeliveredAppend(uuid, m, log, one, taken);
    if !m1.direct {
      DeliveredPlain(uuid, m, log, leftovers);
      DeliveredPlain(uuid, m, log, taken);
    }
    NilRight(ReadOutput(uuid, m1, r) + if AfterRead(uuid, m1, r).direct && !m1.direct then taken else []);
  }
}
