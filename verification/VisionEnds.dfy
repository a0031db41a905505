/** A Vision writer and a Vision reader at the two ends of a connection. */
module VisionEnds {
  import opened Bytes
  import opened VisionUnpadding
  import opened VisionTraffic
  import Reader = VisionReader
  import Writer = VisionWriter

  /** Chunks that bring nothing behind the padded stream cannot open it again. */
  lemma {:induction false} NoChunkBehind(uuid: bytes, skip: nat, chunks: seq<bytes>)
    requires |Concat(chunks)| <= skip
    ensures !Resyncs(uuid, skip, chunks)
    decreases |chunks|
  {
    if chunks != [] {
      assert |Concat(chunks)| == |chunks[0]| + |Concat(chunks[1..])|;
      NoChunkBehind(uuid, if |chunks[0]| < skip then skip - |chunks[0]| else 0, chunks[1..]);
    }
  }

  lemma {:induction false} NothingBehind(uuid: bytes, direct: bool, len: nat, rs: seq<Reader.Read>)
    requires |Reader.Arrived(rs)| <= len
    ensures !Reader.Reopens(uuid, direct, len, rs)
    decreases |rs|
  {
    if rs != [] {
      var n := |Concat(rs[0].chunks)|;
      assert |Reader.Arrived(rs)| == n + |Reader.Arrived(rs[1..])|;
      NoChunkBehind(uuid, len, rs[0].chunks);
      NothingBehind(uuid, direct, if n < len then len - n else 0, rs[1..]);
    }
  }

  /** The terminal block's header and where it starts on the wire. */
  function LastHeader(blocks: seq<Block>): (h: bytes)
    requires blocks != []
    ensures |h| == 5
  {
    HeaderOf(blocks[|blocks| - 1])
  }

  function LastStart(blocks: seq<Block>): nat
    requires blocks != []
  {
    16 + |EncodeBlocks(blocks[..|blocks| - 1])|
  }

  /** What the grammar says of a writer that has left padding. */
  lemma WireParts(uuid: bytes, o: Writer.Out, blocks: seq<Block>, tail: bytes, direct: bool)
    requires Writer.Grammar(uuid, o, blocks, tail, false, direct)
    ensures Terminated(blocks) && blocks != [] && o.tls == uuid + (EncodeBlocks(blocks) + tail)
    ensures blocks[|blocks| - 1].command == if direct || o.onRaw then PADDING_DIRECT else PADDING_END
    ensures (direct || o.onRaw ==> tail == []) && (!o.onRaw ==> o.raw == [])
  {
    hide EncodeBlocks;
    Assoc(uuid, EncodeBlocks(blocks), tail);
  }

  lemma DirectWire(uuid: bytes, blocks: seq<Block>, tls: bytes, init: seq<Reader.Read>, last: Reader.Read, raw: seq<Reader.Read>, leftovers: bytes)
    requires |uuid| == 16 && blocks != [] && Terminated(blocks) && blocks[|blocks| - 1].command == 2 && tls == uuid + (EncodeBlocks(blocks) + [])
    requires var rs := init + [last]; rs[0].chunks != [] && |rs[0].chunks[0]| >= 21 && Reader.Arrived(rs) == tls
    requires |Reader.Arrived(init)| < |tls|
    requires Reader.CleanCuts(LastHeader(blocks), LastStart(blocks), |tls|, init + [last])
    ensures Reader.AfterReads(uuid, Reader.START, (init + [last]) + raw) == Reader.Ended(2)
    ensures Reader.Delivered(uuid, Reader.START, (init + [last]) + raw, leftovers) == Contents(blocks) + (leftovers + Reader.Arrived(raw))
  {
    hide EncodeBlocks, Contents, Terminated, HeaderOf, Reader.Delivered, Reader.AfterReads, Reader.CleanCuts, Reader.Reopens, Reader.Arrived;
    NothingBehind(uuid, true, |tls|, init + [last]);
    NilRight(Contents(blocks));
    Assoc(Contents(blocks), leftovers, Reader.Arrived(raw));
    Reader.DirectRun(uuid, blocks, [], init, last, raw, leftovers);
  }

  /**
   * Writer to reader, to the switch and beyond. The reads bring what the writer put on the TLS layer, the last of them its
   * last byte; the TLS layer's leftovers and the raw reads bring what it put on the raw connection. If no read stops at a
   * misfiring place of the Direct block's header, what the reader delivers is exactly the payload written.
   */
  lemma DirectReaches(w: Writer.VisionWriter, init: seq<Reader.Read>, last: Reader.Read, raw: seq<Reader.Read>, leftovers: bytes)
    requires w.Valid() && !w.traffic.Writing(w.isUplink).isPadding
    requires w.traffic.Writing(w.isUplink).writerDirect || w.o.onRaw
    requires var rs := init + [last]; rs[0].chunks != [] && |rs[0].chunks[0]| >= 21 && Reader.Arrived(rs) == w.o.tls
    requires |Reader.Arrived(init)| < |w.o.tls| && leftovers + Reader.Arrived(raw) == w.o.raw
    requires w.blocks != [] ==> Reader.CleanCuts(LastHeader(w.blocks), LastStart(w.blocks), |w.o.tls|, init + [last])
    ensures Reader.AfterReads(w.traffic.userUUID, Reader.START, (init + [last]) + raw) == Reader.Ended(2)
    ensures Reader.Delivered(w.traffic.userUUID, Reader.START, (init + [last]) + raw, leftovers) == w.Sent()
  {
    hide Writer.Grammar, Writer.WireOf, EncodeBlocks, Contents, Terminated, HeaderOf, Reader.Delivered, Reader.AfterReads, Reader.CleanCuts, Reader.Reopens, Reader.Arrived;
    WireParts(w.traffic.userUUID, w.o, w.blocks, w.tail, w.traffic.Writing(w.isUplink).writerDirect);
    DirectWire(w.traffic.userUUID, w.blocks, w.o.tls, init, last, raw, leftovers);
    NilRight(Contents(w.blocks));
  }

  /** Writer to reader past an End block: contents and unpadded bytes, unless those open a padded stream again. */
  lemma EndReaches(w: Writer.VisionWriter, rs: seq<Reader.Read>, leftovers: bytes)
    requires w.Valid() && !w.traffic.Writing(w.isUplink).isPadding
    requires !w.traffic.Writing(w.isUplink).writerDirect && !w.o.onRaw
    requires rs != [] && rs[0].chunks != [] && |rs[0].chunks[0]| >= 21 && Reader.Arrived(rs) == w.o.tls
    requires w.blocks != [] ==>
               && Reader.CleanCuts(LastHeader(w.blocks), LastStart(w.blocks), 16 + |EncodeBlocks(w.blocks)|, rs)
               && !Reader.Reopens(w.traffic.userUUID, false, 16 + |EncodeBlocks(w.blocks)|, rs)
    ensures Reader.AfterReads(w.traffic.userUUID, Reader.START, rs) == Reader.Ended(1)
    ensures Reader.Delivered(w.traffic.userUUID, Reader.START, rs, leftovers) == w.Sent()
  {
    hide Writer.Grammar, Writer.WireOf, EncodeBlocks, Contents, Terminated, HeaderOf, Reader.Delivered, Reader.AfterReads, Reader.CleanCuts, Reader.Reopens, Reader.Arrived;
    WireParts(w.traffic.userUUID, w.o, w.blocks, w.tail, w.traffic.Writing(w.isUplink).writerDirect);
    NilRight(Contents(w.blocks) + w.tail);
    Reader.EndRun(w.traffic.userUUID, w.blocks, w.tail, rs, leftovers);
  }

  /** The same of the two objects: what the reader has handed out is what the writer was given. */
  lemma ObjectsAgree(w: Writer.VisionWriter, r: Reader.VisionReader, init: seq<Reader.Read>, last: Reader.Read, raw: seq<Reader.Read>)
    requires w.Valid() && r.Valid() && r.start == Reader.START && r.traffic.userUUID == w.traffic.userUUID
    requires !w.traffic.Writing(w.isUplink).isPadding && (w.traffic.Writing(w.isUplink).writerDirect || w.o.onRaw)
    requires r.log == (init + [last]) + raw && (init + [last])[0].chunks != [] && |(init + [last])[0].chunks[0]| >= 21
    requires Reader.Arrived(init + [last]) == w.o.tls && |Reader.Arrived(init)| < |w.o.tls|
    requires r.leftovers + Reader.Arrived(raw) == w.o.raw
    requires w.blocks != [] ==> Reader.CleanCuts(LastHeader(w.blocks), LastStart(w.blocks), |w.o.tls|, init + [last])
    ensures r.delivered == w.Sent() && r.Now().direct
  {
    DirectReaches(w, init, last, raw, r.leftovers);
  }
}
