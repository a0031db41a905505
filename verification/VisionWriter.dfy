/** VisionWriter: padding of one buffer, reshaping, and the grammar of everything a writer puts on the wire. */
module VisionWriter {
  import opened Bytes
  import opened Options
  import opened VisionUnpadding
  import opened VisionTraffic
  import opened VisionRecords

  /** What the padding arithmetic needs of a test seed; the default {900, 500, 900, 256} has it. */
  predicate GoodSeed(seed: seq<nat>) {
    && |seed| == 4
    && 0 < seed[1] && 0 < seed[3]
    && seed[0] <= seed[2]
    && (forall i :: 0 <= i < 4 ==> seed[i] < 0x1000_0000)
  }

  /** The room a block leaves for content in a pooled buffer: 16 bytes of UUID and 5 of header. */
  const ROOM: nat := SIZE - 21

  /** A block that fits a pooled buffer together with the UUID. */
  predicate InRoom(b: Block) {
    |b.content| + |b.padding| <= ROOM
  }

  predicate AllInRoom(blocks: seq<Block>) {
    forall i :: 0 <= i < |blocks| ==> InRoom(blocks[i])
  }

  /** The padding length XtlsPadding draws and cuts down to the room left. */
  method PaddingLength(contentLen: nat, longPadding: bool, seed: seq<nat>) returns (paddingLen: int)
    requires GoodSeed(seed) && contentLen <= ROOM
    ensures 0 <= paddingLen <= ROOM - contentLen
    ensures longPadding && contentLen < seed[0] ==> paddingLen + contentLen >= if seed[2] < ROOM then seed[2] else ROOM
  {
    if contentLen < seed[0] && longPadding {
      var l :| 0 <= l < seed[1];
      paddingLen := l + seed[2] - contentLen;
    } else {
      var l :| 0 <= l < seed[3];
      paddingLen := l;
    }
    if paddingLen > SIZE - 21 - contentLen {
      paddingLen := SIZE - 21 - contentLen;
    }
  }

  /** XtlsPadding: no Write is truncated, no Extend panics, both lengths fit their two bytes. */
  method XtlsPadding(b: Option<bytes>, command: byte, userUUID: bytes, longPadding: bool, seed: seq<nat>)
    returns (newbuffer: bytes, paddingLen: nat)
    requires GoodSeed(seed) && |userUUID| <= 16 && (b.Some? ==> |b.value| <= ROOM)
    ensures var block := Block(command, if b.Some? then b.value else [], Zeros(paddingLen));
            InRoom(block) && block.Fits() && newbuffer == userUUID + EncodeBlock(block) && |newbuffer| <= SIZE
  {
    var content := if b.Some? then b.value else [];
    paddingLen := PaddingLength(|content|, longPadding, seed);
    ghost var block := Block(command, content, Zeros(paddingLen));
    var header: bytes := [command, Hi(|content|), Lo(|content|), Hi(paddingLen), Lo(paddingLen)];
    assert header == HeaderOf(block);
    newbuffer := Assemble(userUUID, header, content, paddingLen);
    assert userUUID + header + content + Zeros(paddingLen) == userUUID + (header + content + Zeros(paddingLen));
  }

  /** The writes into the new buffer: nothing is cut off. */
  method Assemble(userUUID: bytes, header: bytes, content: bytes, paddingLen: nat) returns (newbuffer: bytes)
    requires |userUUID| + |header| + |content| + paddingLen <= SIZE
    ensures newbuffer == userUUID + header + content + Zeros(paddingLen)
  {
    newbuffer := Written([], userUUID);
    newbuffer := Written(newbuffer, header);
    newbuffer := Written(newbuffer, content);
    assert |newbuffer| + paddingLen <= SIZE;  // otherwise Extend panics
    newbuffer := newbuffer + Zeros(paddingLen);
  }

  /** bytes.LastIndex of the application-data prefix. */
  method LastApplicationData(b: bytes) returns (index: int)
    ensures -1 <= index && (index >= 0 ==> ContainsAt(b, APPLICATION_DATA, index))
    ensures forall i :: index < i <= |b| ==> !ContainsAt(b, APPLICATION_DATA, i)
  {
    index := |b|;
    while index >= 0
      invariant -1 <= index <= |b|
      invariant forall i :: index < i <= |b| ==> !ContainsAt(b, APPLICATION_DATA, i)
    {
      if ContainsAt(b, APPLICATION_DATA, index) {
        return;
      }
      index := index - 1;
    }
  }

  /** One buffer of ReshapeMultiBuffer: kept, or cut in two at the last record prefix or in the middle. */
  method Reshape(buffer: bytes) returns (parts: seq<bytes>)
    requires |buffer| <= SIZE
    ensures Concat(parts) == buffer
    ensures forall i :: 0 <= i < |parts| ==> |parts[i]| <= ROOM
    ensures |buffer| < ROOM ==> parts == [buffer]
  {
    ConcatSnoc([], buffer);
    assert [] + [buffer] == [buffer];
    if |buffer| >= ROOM {
      var index := LastApplicationData(buffer);
      if index < 21 || index > ROOM {
        index := SIZE / 2;
      }
      parts := [buffer[..index], buffer[index..]];
      assert parts[1..] == [buffer[index..]];
      ConcatSnoc([], buffer[index..]);
      assert [] + [buffer[index..]] == [buffer[index..]];
      assert buffer == buffer[..index] + buffer[index..];
    } else {
      parts := [buffer];
    }
  }

  /** ReshapeMultiBuffer: the bytes stay, and every buffer then leaves room for the padding structure. */
  method ReshapeMultiBuffer(buffer: seq<bytes>) returns (mb: seq<bytes>)
    requires forall i :: 0 <= i < |buffer| ==> |buffer[i]| <= SIZE
    ensures Concat(mb) == Concat(buffer)
    ensures forall i :: 0 <= i < |mb| ==> |mb[i]| <= ROOM
    ensures (forall i :: 0 <= i < |buffer| ==> |buffer[i]| < ROOM) ==> mb == buffer
  {
    mb := [];
    var i := 0;
    while i < |buffer|
      invariant 0 <= i <= |buffer|
      invariant Concat(mb) == Concat(buffer[..i])
      invariant forall k :: 0 <= k < |mb| ==> |mb[k]| <= ROOM
      invariant (forall k :: 0 <= k < |buffer| ==> |buffer[k]| < ROOM) ==> mb == buffer[..i]
    {
      assert buffer[..i + 1] == buffer[..i] + [buffer[i]];
      ConcatSnoc(buffer[..i], buffer[i]);
      var parts := Reshape(buffer[i]);
      ConcatAppend(mb, parts);
      mb := mb + parts;
      i := i + 1;
    }
    assert buffer[..i] == buffer;
  }

  predicate StartsApplicationData(b: bytes) {
    |b| >= 6 && b[..3] == APPLICATION_DATA
  }

  lemma BlocksSnoc(bs: seq<Block>, b: Block)
    requires AllContinue(bs) && AllInRoom(bs) && b.Fits() && InRoom(b)
    ensures AllInRoom(bs + [b]) && (bs + [b])[|bs + [b]| - 1] == b
    ensures if b.command == PADDING_CONTINUE then AllContinue(bs + [b]) else Terminated(bs + [b])
  {
    assert (bs + [b])[..|bs + [b]| - 1] == bs;
  }

  lemma TerminatedAppend(a: seq<Block>, b: seq<Block>)
    requires AllContinue(a) && Terminated(b)
    ensures Terminated(a + b) && (a + b)[|a + b| - 1] == b[|b| - 1]
  {
    var init := b[..|b| - 1];
    assert (a + b)[..|a + b| - 1] == a + init;
    forall i | 0 <= i < |a + init|
      ensures (a + init)[i].Fits() && (a + init)[i].command == PADDING_CONTINUE
    {
      if i >= |a| {
        assert init[i - |a|].command == PADDING_CONTINUE;
      }
    }
  }

  /** What a writer has put out: on the TLS-layer writer, on the raw connection, and the UUID while it is still owed. */
  datatype Out = Out(tls: bytes, raw: bytes, onRaw: bool, once: bytes)

  /** Blocks on the wire, the UUID in front of the first one. */
  function WireOf(uuid: bytes, blocks: seq<Block>): bytes {
    if blocks == [] then [] else uuid + EncodeBlocks(blocks)
  }

  /** Once a block is out the UUID is not owed any more. */
  lemma WireAppend(uuid: bytes, a: seq<Block>, b: seq<Block>)
    ensures WireOf(uuid, a) + WireOf(if a == [] then uuid else [], b) == WireOf(uuid, a + b)
    ensures Contents(a + b) == Contents(a) + Contents(b)
  {
    EncodeBlocksAppend(a, b);
    if a == [] {
      assert a + b == b;
    } else if b == [] {
      assert a + b == a;
    } else {
      assert [] + EncodeBlocks(b) == EncodeBlocks(b);
      Assoc(uuid, EncodeBlocks(a), EncodeBlocks(b));
    }
  }

  /** The wire grammar. */
  ghost predicate Grammar(uuid: bytes, o: Out, blocks: seq<Block>, tail: bytes, isPadding: bool, direct: bool) {
    // the UUID once, in front of the first block
    && o.once == (if blocks == [] then uuid else [])
    && o.tls == WireOf(uuid, blocks) + tail
    && AllInRoom(blocks)
    // Continue blocks while padding; then exactly one terminal block
    && (isPadding ==> AllContinue(blocks) && tail == [] && !direct && !o.onRaw)
    && (!isPadding ==> Terminated(blocks) && 1 <= blocks[|blocks| - 1].command <= 2)
    // Direct exactly when direct copy was asked for; nothing follows it on the TLS-layer writer
    && (!isPadding ==> (blocks[|blocks| - 1].command == PADDING_DIRECT <==> direct || o.onRaw))
    && (direct || o.onRaw ==> tail == [])
    && !(direct && o.onRaw)
    && (!o.onRaw ==> o.raw == [])
  }

  /** What the padding loop of one call produces from the UUID still owed. */
  ghost predicate Padded(once: bytes, once': bytes, wire: bytes, isPadding: bool, direct: bool, bs: seq<Block>, rest: bytes) {
    && wire == WireOf(once, bs) + rest
    && once' == (if bs == [] then once else [])
    && AllInRoom(bs)
    && (isPadding ==> AllContinue(bs) && rest == [] && !direct)
    && (!isPadding ==> Terminated(bs) && bs[|bs| - 1].command == (if direct then PADDING_DIRECT else PADDING_END))
    && (direct ==> rest == [])
  }

  /** Appending what one padded call produced keeps the grammar. */
  lemma GrammarPadded(uuid: bytes, o: Out, blocks: seq<Block>, tail: bytes, once': bytes, wire: bytes,
                      isPadding: bool, direct: bool, bs: seq<Block>, rest: bytes)
    requires Grammar(uuid, o, blocks, tail, true, false) && Padded(o.once, once', wire, isPadding, direct, bs, rest)
    ensures Grammar(uuid, o.(tls := o.tls + wire, once := once'), blocks + bs, rest, isPadding, direct)
    ensures Contents(blocks + bs) == Contents(blocks) + Contents(bs)
  {
    WireExtend(uuid, blocks, bs, o.tls, o.once, wire, rest);
    if !isPadding {
      TerminatedAppend(blocks, bs);
    }
    assert blocks + bs == [] <==> blocks == [] && bs == [];
  }

  lemma Reassociate(x: bytes, y: bytes, z: bytes)
    ensures (x + []) + (y + z) == (x + y) + z
  {
  }

  lemma WireExtend(uuid: bytes, blocks: seq<Block>, bs: seq<Block>, tls: bytes, once: bytes, wire: bytes, rest: bytes)
    requires tls == WireOf(uuid, blocks) + [] && once == (if blocks == [] then uuid else [])
    requires wire == WireOf(once, bs) + rest
    ensures tls + wire == WireOf(uuid, blocks + bs) + rest
    ensures Contents(blocks + bs) == Contents(blocks) + Contents(bs)
  {
    WireAppend(uuid, blocks, bs);
    Reassociate(WireOf(uuid, blocks), WireOf(once, bs), rest);
  }

  lemma SentMore(a: bytes, tail: bytes, raw: bytes, data: bytes)
    ensures a + tail + (raw + data) == a + tail + raw + data
    ensures raw == [] ==> a + (tail + data) + raw == a + tail + raw + data
  {
  }

  lemma SentExtend(a: bytes, b: bytes, rest: bytes)
    ensures (a + b) + rest + [] == (a + [] + []) + (b + rest)
  {
  }

  lemma PaddedSnoc(once: bytes, bs: seq<Block>, b: Block, owed: bytes)
    requires owed == if bs == [] then once else []
    ensures WireOf(once, bs) + (owed + EncodeBlock(b)) == WireOf(once, bs + [b])
    ensures Contents(bs + [b]) == Contents(bs) + b.content
  {
    WireAppend(once, bs, [b]);
    EncodeBlocksSnoc([], b);
    assert [] + [b] == [b];
    assert [] + EncodeBlock(b) == EncodeBlock(b) && [] + b.content == b.content;
    assert WireOf(owed, [b]) == owed + EncodeBlock(b);
  }

  /** The padding loop after `i` buffers: one block each, Continue so far unless the last buffer has just ended padding. */
  ghost predicate Looped(mb: seq<bytes>, i: nat, once: bytes, once': bytes, wire: bytes, isPadding: bool, direct: bool, xtls: bool, bs: seq<Block>) {
    && i <= |mb| && i == |bs| && AllInRoom(bs)
    && wire == WireOf(once, bs) && once' == (if bs == [] then once else [])
    && Contents(bs) == Concat(mb[..i])
    && (if isPadding then !direct else direct == xtls && bs != [])
    && (isPadding || i < |mb| ==> AllContinue(bs))
    && (!isPadding && i == |mb| ==> Terminated(bs) && bs[|bs| - 1].command == (if direct then PADDING_DIRECT else PADDING_END))
  }

  lemma LoopedBounds(mb: seq<bytes>, i: nat, once: bytes, once': bytes, wire: bytes, isPadding: bool, direct: bool, xtls: bool, bs: seq<Block>)
    requires Looped(mb, i, once, once', wire, isPadding, direct, xtls, bs)
    ensures if isPadding then !direct else direct == xtls
  {
  }

  /** One more block. */
  lemma BlockAdded(mb: seq<bytes>, i: nat, once: bytes, once': bytes, bs: seq<Block>, block: Block)
    requires i < |mb| && i == |bs| && once' == (if bs == [] then once else [])
    requires Contents(bs) == Concat(mb[..i]) && block.content == mb[i]
    ensures WireOf(once, bs) + (once' + EncodeBlock(block)) == WireOf(once, bs + [block])
    ensures Contents(bs + [block]) == Concat(mb[..i + 1])
  {
    hide WireOf, Contents, EncodeBlock;
    PaddedSnoc(once, bs, block, once');
    assert mb[..i + 1] == mb[..i] + [mb[i]];
    ConcatSnoc(mb[..i], mb[i]);
  }

  lemma LoopedNext(mb: seq<bytes>, i: nat, once: bytes, once': bytes, wire: bytes, isPadding: bool, direct: bool, xtls: bool, bs: seq<Block>,
                   block: Block, isPadding': bool, direct': bool)
    requires Looped(mb, i, once, once', wire, isPadding, direct, xtls, bs) && i < |mb|
    requires block.content == mb[i] && block.Fits() && InRoom(block)
    requires isPadding' ==> isPadding && !direct' && block.command == PADDING_CONTINUE
    requires !isPadding' ==>
               direct' == xtls && block.command == if i < |mb| - 1 then PADDING_CONTINUE else if xtls then PADDING_DIRECT else PADDING_END
    ensures Looped(mb, i + 1, once, [], wire + (once' + EncodeBlock(block)), isPadding', direct', xtls, bs + [block])
  {
    BlockAdded(mb, i, once, once', bs, block);
    BlocksSnoc(bs, block);
    hide WireOf, Contents, EncodeBlock, Concat, AllInRoom, AllContinue, Terminated;
  }

  lemma LoopedStop(mb: seq<bytes>, i: nat, once: bytes, once': bytes, wire: bytes, isPadding: bool, direct: bool, bs: seq<Block>, block: Block)
    requires Looped(mb, i, once, once', wire, isPadding, direct, false, bs) && i < |mb|
    requires block.content == mb[i] && block.Fits() && InRoom(block) && block.command == PADDING_END
    ensures Padded(once, [], wire + (once' + EncodeBlock(block)) + Concat(mb[i + 1..]), false, direct, bs + [block], Concat(mb[i + 1..]))
    ensures Contents(bs + [block]) + Concat(mb[i + 1..]) == Concat(mb)
  {
    BlockAdded(mb, i, once, once', bs, block);
    BlocksSnoc(bs, block);
    hide WireOf, Contents, EncodeBlock, Concat, AllInRoom, AllContinue, Terminated;
    ConcatCut(mb, i + 1);
  }

  lemma ConcatCut(mb: seq<bytes>, i: nat)
    requires i <= |mb|
    ensures Concat(mb[..i]) + Concat(mb[i..]) == Concat(mb)
  {
    assert mb == mb[..i] + mb[i..];
    ConcatAppend(mb[..i], mb[i..]);
  }

  lemma LoopedDone(mb: seq<bytes>, once: bytes, once': bytes, wire: bytes, isPadding: bool, direct: bool, xtls: bool, bs: seq<Block>)
    requires Looped(mb, |mb|, once, once', wire, isPadding, direct, xtls, bs)
    ensures Padded(once, once', wire, isPadding, direct, bs, []) && Contents(bs) + [] == Concat(mb)
  {
    hide WireOf, Contents, Concat, AllInRoom, AllContinue, Terminated;
    assert mb[..|mb|] == mb;
    NilRight(wire);
    NilRight(Contents(bs));
  }

  lemma OnceBounded(uuid: bytes, o: Out, blocks: seq<Block>, tail: bytes, isPadding: bool, direct: bool)
    requires Grammar(uuid, o, blocks, tail, isPadding, direct)
    ensures |o.once| <= |uuid|
  {
  }

  /** A single empty Continue block. */
  lemma NilPadded(once: bytes, block: Block)
    requires block.content == [] && block.command == PADDING_CONTINUE && block.Fits() && InRoom(block)
    ensures Padded(once, [], once + EncodeBlock(block), true, false, [block], [])
    ensures Contents([block]) + [] == []
  {
    EncodeBlocksSnoc([], block);
    assert [] + [block] == [block] && [] + EncodeBlock(block) == EncodeBlock(block);
    NilRight(once + EncodeBlock(block));
  }

  class VisionWriter {
    const traffic: TrafficState
    const isUplink: bool
    const seed: seq<nat>
    /** Everything handed to the two connections; o.onRaw says which one w.Writer is now. */
    var o: Out
    /** How often w.Writer was replaced. */
    var swaps: nat
    /** The blocks and the unpadded bytes that make up o.tls. */
    ghost var blocks: seq<Block>
    ghost var tail: bytes

    ghost predicate Valid()
      reads this, traffic
    {
      var e := traffic.Writing(isUplink);
      && traffic.Valid() && GoodSeed(seed)
      && Grammar(traffic.userUUID, o, blocks, tail, e.isPadding, e.writerDirect)
      && swaps == (if o.onRaw then 1 else 0)
    }

    /** The payload written so far. */
    ghost function Sent(): bytes
      reads this
    {
      Contents(blocks) + tail + o.raw
    }

    constructor (traffic: TrafficState, isUplink: bool, testseed: seq<nat>)
      requires traffic.Valid() && traffic.Writing(isUplink).isPadding && !traffic.Writing(isUplink).writerDirect
      requires |testseed| >= 4 ==> GoodSeed(testseed)
      ensures Valid() && Sent() == [] && this.traffic == traffic && this.isUplink == isUplink
    {
      this.traffic, this.isUplink := traffic, isUplink;
      seed := if |testseed| < 4 then [900, 500, 900, 256] else testseed;
      o, swaps := Out([], [], false, traffic.userUUID), 0;
      blocks, tail := [], [];
    }

    /** One padded block with the UUID in front of the first one. */
    method Pad(b: bytes, command: byte, once: bytes, longPadding: bool) returns (out: bytes, ghost block: Block)
      requires GoodSeed(seed) && |once| <= 16 && |b| <= ROOM
      ensures block.command == command && block.content == b && block.Fits() && InRoom(block)
      ensures out == once + EncodeBlock(block)
    {
      var paddingLen;
      out, paddingLen := XtlsPadding(Some(b), command, once, longPadding, seed);
      block := Block(command, b, Zeros(paddingLen));
    }

    /** The command of a buffer once padding is about to end. */
    function Ending(last: bool): byte
      reads traffic
    {
      if !last then PADDING_CONTINUE else if traffic.enableXtls then PADDING_DIRECT else PADDING_END
    }

    /**
     * The padding loop over the reshaped buffers. If padding goes on, only Continue blocks were made; if it ends, the
     * blocks are terminated, by Direct exactly when direct copy is asked for, and only End lets bytes follow unpadded.
     */
    method PadAll(mb: seq<bytes>, isComplete: bool, once: bytes)
      returns (once': bytes, wire: bytes, isPadding: bool, direct: bool, ghost bs: seq<Block>, ghost rest: bytes)
      requires traffic.Valid() && GoodSeed(seed) && |once| <= 16
      requires forall i :: 0 <= i < |mb| ==> |mb[i]| <= ROOM
      ensures Padded(once, once', wire, isPadding, direct, bs, rest)
      ensures Contents(bs) + rest == Concat(mb)
    {
      once', wire, isPadding, direct := once, [], true, false;
      bs, rest := [], [];
      var longPadding := traffic.isTLS;
      var i := 0;
      while i < |mb|
        invariant 0 <= i <= |mb| && |once'| <= 16
        invariant Looped(mb, i, once, once', wire, isPadding, direct, traffic.enableXtls, bs)
      {
        hide Looped, Padded, WireOf, Contents, EncodeBlock, Concat;
        LoopedBounds(mb, i, once, once', wire, isPadding, direct, traffic.enableXtls, bs);
        var b := mb[i];
        var last := i == |mb| - 1;
        var out;
        ghost var block, was, wasDirect := Block(0, [], []), isPadding, direct;
        if traffic.isTLS && StartsApplicationData(b) && isComplete {
          if traffic.enableXtls {
            direct := true;
          }
          out, block := Pad(b, Ending(last), once', true);
          isPadding := false;
          longPadding := false;
        } else if !traffic.isTLS12orAbove && traffic.packetsToFilter <= 1 {
          isPadding := false;
          out, block := Pad(b, PADDING_END, once', longPadding);
          LoopedStop(mb, i, once, once', wire, was, direct, bs, block);
          var rest' := Concat(mb[i + 1..]);
          once', bs, rest := [], bs + [block], rest';
          wire := wire + out + rest';
          return;
        } else {
          out, block := Pad(b, if isPadding then PADDING_CONTINUE else Ending(last), once', longPadding);
        }
        LoopedNext(mb, i, once, once', wire, was, wasDirect, traffic.enableXtls, bs, block, isPadding, direct);
        wire, once', bs := wire + out, [], bs + [block];
        i := i + 1;
      }
      LoopedDone(mb, once, once', wire, isPadding, direct, traffic.enableXtls, bs);
    }

    /** Swaps in the raw connection when the previous call asked for direct copy. */
    method SwapIfDirect()
      requires Valid()
      modifies this`o, this`swaps, traffic`inbound, traffic`outbound
      ensures Valid() && Sent() == old(Sent()) && !traffic.Writing(isUplink).writerDirect
      ensures traffic.Writing(isUplink).isPadding == old(traffic.Writing(isUplink).isPadding)
      ensures o == old(o).(onRaw := old(o.onRaw) || old(traffic.Writing(isUplink)).writerDirect)
      ensures traffic.Reading(isUplink) == old(traffic.Reading(isUplink))
    {
      var e := traffic.Writing(isUplink);
      if e.writerDirect {
        o := o.(onRaw := true);
        swaps := swaps + 1;
        traffic.SetWriting(isUplink, e.(writerDirect := false));
      }
    }

    /** Writes what one padded call produced. */
    method Commit(once': bytes, wire: bytes, isPadding: bool, direct: bool, ghost bs: seq<Block>, ghost rest: bytes)
      requires Valid() && traffic.Writing(isUplink).isPadding
      requires Padded(o.once, once', wire, isPadding, direct, bs, rest)
      modifies this`o, this`blocks, this`tail, traffic`inbound, traffic`outbound
      ensures Valid() && blocks == old(blocks) + bs && Sent() == old(Sent()) + (Contents(bs) + rest)
      ensures traffic.Reading(isUplink) == old(traffic.Reading(isUplink))
    {
      hide Padded, WireOf, Contents;
      GrammarPadded(traffic.userUUID, o, blocks, tail, once', wire, isPadding, direct, bs, rest);
      SentExtend(Contents(blocks), Contents(bs), rest);
      traffic.SetWriting(isUplink, traffic.Writing(isUplink).(isPadding := isPadding, writerDirect := direct));
      o := o.(tls := o.tls + wire, once := once');
      blocks, tail := blocks + bs, rest;
    }

    /** After padding has ended, buffers go out as they are. */
    method WriteUnpadded(data: bytes)
      requires Valid() && !traffic.Writing(isUplink).isPadding && !traffic.Writing(isUplink).writerDirect
      modifies this`o, this`tail
      ensures Valid() && Sent() == old(Sent()) + data
      ensures o.onRaw == old(o.onRaw) && (o.onRaw ==> o.tls == old(o.tls))
    {
      SentMore(Contents(blocks), tail, o.raw, data);
      if o.onRaw {
        o := o.(raw := o.raw + data);
      } else {
        Assoc(WireOf(traffic.userUUID, blocks), tail, data);
        o, tail := o.(tls := o.tls + data), tail + data;
      }
    }

    /** The padded case of WriteMultiBuffer. */
    method WritePadded(mb: seq<bytes>)
      requires Valid() && traffic.Writing(isUplink).isPadding
      requires forall i :: 0 <= i < |mb| ==> |mb[i]| <= SIZE
      modifies this, traffic`inbound, traffic`outbound
      ensures Valid() && Sent() == old(Sent()) + Concat(mb) && old(blocks) <= blocks
      ensures traffic.Reading(isUplink) == old(traffic.Reading(isUplink))
    {
      var isComplete := IsCompleteRecord(mb);
      var mb2 := ReshapeMultiBuffer(mb);
      var once', wire, isPadding, direct;
      ghost var bs, rest;
      once', wire, isPadding, direct, bs, rest := PadAll(mb2, isComplete, o.once);
      Commit(once', wire, isPadding, direct, bs, rest);
    }

    /** WriteMultiBuffer for a list of buffers: the grammar is kept and the payload of the call is appended. */
    method WriteMultiBuffer(mb: seq<bytes>)
      requires Valid() && forall i :: 0 <= i < |mb| ==> |mb[i]| <= SIZE
      modifies this, traffic
      ensures Valid() && Sent() == old(Sent()) + Concat(mb) && old(blocks) <= blocks
      ensures old(traffic.Writing(isUplink).writerDirect) || old(o.onRaw) ==> o.onRaw && o.tls == old(o.tls)
      ensures traffic.Reading(isUplink) == old(traffic.Reading(isUplink))
    {
      SwapIfDirect();
      if traffic.packetsToFilter > 0 {
        traffic.XtlsFilterTls(mb);
      }
      if traffic.Writing(isUplink).isPadding {
        WritePadded(mb);
      } else {
        WriteUnpadded(Concat(mb));
      }
    }

    /** One long-padded, empty Continue block. */
    method PadNil()
      requires Valid() && traffic.Writing(isUplink).isPadding
      modifies this`o, this`blocks, this`tail, traffic`inbound, traffic`outbound
      ensures Valid() && Sent() == old(Sent()) && old(blocks) <= blocks
      ensures traffic.Reading(isUplink) == old(traffic.Reading(isUplink))
    {
      OnceBounded(traffic.userUUID, o, blocks, tail, true, traffic.Writing(isUplink).writerDirect);
      hide Grammar, Padded, WireOf, Contents, EncodeBlock, Zeros;
      var out, paddingLen := XtlsPadding(None, PADDING_CONTINUE, o.once, true, seed);
      ghost var block := Block(PADDING_CONTINUE, [], Zeros(paddingLen));
      NilPadded(o.once, block);
      ghost var bs := [block];
      NilRight(Sent());
      Extends(blocks, bs);
      Commit([], out, true, false, bs, []);
    }

    /** A call may carry a single nil buffer: an empty block hides the request header. */
    method WriteNil()
      requires Valid()
      modifies this, traffic
      ensures Valid() && Sent() == old(Sent()) && old(blocks) <= blocks
      ensures traffic.Reading(isUplink) == old(traffic.Reading(isUplink))
    {
      hide Grammar, Contents;
      SwapIfDirect();
      if traffic.Writing(isUplink).isPadding {
        PadNil();
      }
    }
  }

  lemma Extends(a: seq<Block>, b: seq<Block>)
    ensures a <= a + b
  {
  }

  /**
   * Writer to reader. Whatever calls were made and however the TLS-layer bytes are cut into chunks, the first having at
   * least 21 bytes, unpadding them yields exactly the payload that went that way, unless bytes after an End block open a
   * padded stream again.
   */
  lemma WriterReachesReader(w: VisionWriter, chunks: seq<bytes>)
    requires w.Valid() && chunks != [] && |chunks[0]| >= 21 && Concat(chunks) == w.o.tls
    ensures var uuid := w.traffic.userUUID;
            ChunksOutput(uuid, Link(-1, -1, -1, 0), chunks) == Contents(w.blocks) + w.tail
            <==> (w.traffic.Writing(w.isUplink).isPadding || !Resyncs(uuid, 16 + |EncodeBlocks(w.blocks)|, chunks))
  {
    hide Grammar, Contents, Resyncs, ChunksOutput, EncodeBlocks;
    GrammarReachesReader(w.traffic.userUUID, w.o, w.blocks, w.tail, w.traffic.Writing(w.isUplink).isPadding,
                         w.traffic.Writing(w.isUplink).writerDirect, chunks);
  }

  lemma GrammarReachesReader(uuid: bytes, o: Out, blocks: seq<Block>, tail: bytes, isPadding: bool, direct: bool, chunks: seq<bytes>)
    requires |uuid| == 16 && Grammar(uuid, o, blocks, tail, isPadding, direct)
    requires chunks != [] && |chunks[0]| >= 21 && Concat(chunks) == o.tls
    ensures ChunksOutput(uuid, Link(-1, -1, -1, 0), chunks) == Contents(blocks) + tail
            <==> (isPadding || !Resyncs(uuid, 16 + |EncodeBlocks(blocks)|, chunks))
  {
    var e := EncodeBlocks(blocks);
    assert blocks != [];
    if isPadding {
      NilRight(uuid + e);
      RoundTripOpen(uuid, blocks, chunks, Link(-1, -1, -1, 0));
      NilRight(Contents(blocks));
    } else {
      Assoc(uuid, e, tail);
      RoundTrip(uuid, blocks, tail, chunks, Link(-1, -1, -1, 0));
    }
  }
}
