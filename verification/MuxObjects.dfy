/** The two ends of a mux connection as the program runs them: a session's writer, and the server's frame loop. */
module MuxObjects {
  import opened Bytes
  import opened Options
  import opened MultiBuffers
  import opened BufferedReading
  import opened NetAddress
  import opened MuxFrame
  import opened MuxReaders
  import opened MuxLink

  /** The frames written for a list of operations, in order; only the first of a writer's life opens the session. */
  ghost predicate Wrote(frames: seq<bytes>, ops: seq<Op>, peer: Peer, followup: bool)
    decreases |ops|
  {
    && |frames| == |ops|
    && (ops == [] || (
          var n := |ops| - 1;
          && CanWrite(ops[n], peer, followup || n > 0) && frames[n] == FrameBytes(ops[n], peer, followup || n > 0)
          && Wrote(frames[..n], ops[..n], peer, followup)))
  }

  ghost predicate AllData(ops: seq<Op>, id: nat) {
    forall i :: 0 <= i < |ops| ==> ops[i].Data? && ops[i].id == id && |ops[i].chunk| <= SIZE
  }

  lemma {:induction false} SentSnoc(ops: seq<Op>, op: Op, id: nat)
    requires op.Data? && op.id == id
    ensures Sent(ops + [op], id) == Sent(ops, id) + op.chunk
    decreases |ops|
  {
    if ops == [] {
      assert (ops + [op])[1..] == [];
      NilRight(op.chunk);
    } else {
      SentSnoc(ops[1..], op, id);
      assert (ops + [op])[1..] == ops[1..] + [op];
      Assoc(if ops[0].Data? && ops[0].id == id then ops[0].chunk else [], Sent(ops[1..], id), op.chunk);
    }
  }

  lemma WroteSnoc(frames: seq<bytes>, ops: seq<Op>, peer: Peer, followup: bool, op: Op, frame: bytes)
    requires Wrote(frames, ops, peer, followup)
    requires CanWrite(op, peer, followup || |ops| > 0) && frame == FrameBytes(op, peer, followup || |ops| > 0)
    ensures Wrote(frames + [frame], ops + [op], peer, followup)
  {
    assert (ops + [op])[..|ops|] == ops && (frames + [frame])[..|frames|] == frames;
  }

  /** What a loop over a list has written so far: data frames whose payloads, with what is left, are the list's bytes. */
  ghost predicate Writing(frames: seq<bytes>, ops: seq<Op>, id: nat, peer: Peer, followup: bool, left: bytes, all: bytes) {
    Wrote(frames, ops, peer, followup) && AllData(ops, id) && Sent(ops, id) + left == all
  }

  lemma WritingNone(id: nat, peer: Peer, followup: bool, all: bytes)
    ensures Writing([], [], id, peer, followup, all, all)
  {
    assert [] + all == all;
  }

  lemma WritingNext(frames: seq<bytes>, ops: seq<Op>, id: nat, peer: Peer, followup: bool, left: bytes, all: bytes,
                    op: Op, frame: bytes, rest: bytes)
    requires Writing(frames, ops, id, peer, followup, left, all)
    requires op.Data? && op.id == id && |op.chunk| <= SIZE && op.chunk + rest == left
    requires CanWrite(op, peer, followup || |ops| > 0) && frame == FrameBytes(op, peer, followup || |ops| > 0)
    ensures Writing(frames + [frame], ops + [op], id, peer, followup, rest, all)
  {
    hide CanWrite, FrameBytes;
    WroteSnoc(frames, ops, peer, followup, op, frame);
    SentSnoc(ops, op, id);
    hide Wrote, Sent;
    Assoc(Sent(ops, id), op.chunk, rest);
  }

  lemma Written(frames: seq<bytes>, ops: seq<Op>, id: nat, peer: Peer, followup: bool, left: bytes, all: bytes)
    requires Writing(frames, ops, id, peer, followup, left, all)
    ensures Wrote(frames, ops, peer, followup) && AllData(ops, id) && (left == [] ==> Sent(ops, id) == all)
  {
    NilRight(Sent(ops, id));
  }

  /** The operations of one writer: its own, of at most one buffer each, and End only as the last one of a closed writer. */
  ghost predicate OwnOps(ops: seq<Op>, id: nat, closed: bool) {
    && (closed ==> ops != [])
    && forall i :: 0 <= i < |ops| ==>
         ops[i].id == id && (ops[i].Data? ==> |ops[i].chunk| <= SIZE) && (ops[i].End? <==> closed && i == |ops| - 1)
  }

  lemma {:induction false} SentAppend(a: seq<Op>, b: seq<Op>, id: nat)
    ensures Sent(a + b, id) == Sent(a, id) + Sent(b, id)
    decreases |a|
  {
    if a == [] {
      assert a + b == b;
    } else {
      SentAppend(a[1..], b, id);
      assert (a + b)[1..] == a[1..] + b;
      Assoc(if a[0].Data? && a[0].id == id then a[0].chunk else [], Sent(a[1..], id), Sent(b, id));
    }
  }

  lemma {:induction false} WroteAppend(a: seq<bytes>, x: seq<Op>, b: seq<bytes>, y: seq<Op>, peer: Peer, followup: bool)
    requires Wrote(a, x, peer, followup) && Wrote(b, y, peer, followup || |x| > 0)
    ensures Wrote(a + b, x + y, peer, followup)
    decreases |y|
  {
    if y == [] {
      assert a + b == a && x + y == x;
    } else {
      var n := |y| - 1;
      assert Wrote(b[..n], y[..n], peer, followup || |x| > 0);
      assert CanWrite(y[n], peer, followup || |x| + n > 0) && b[n] == FrameBytes(y[n], peer, followup || |x| + n > 0);
      hide Wrote, CanWrite, FrameBytes;
      WroteAppend(a, x, b[..n], y[..n], peer, followup);
      WroteSnoc(a + b[..n], x + y[..n], peer, followup, y[n], b[n]);
      SnocOf(a, b);
      SnocOf(x, y);
    }
  }

  lemma SnocOf<T>(a: seq<T>, b: seq<T>)
    requires b != []
    ensures (a + b[..|b| - 1]) + [b[|b| - 1]] == a + b
  {
  }

  /** One list more. */
  lemma Extended(frames: seq<bytes>, ops: seq<Op>, out: seq<bytes>, more: seq<Op>, id: nat, peer: Peer, data: bytes)
    requires Wrote(frames, ops, peer, false) && OwnOps(ops, id, false)
    requires Wrote(out, more, peer, |ops| > 0) && OwnOps(more, id, false) && Sent(more, id) == data
    ensures Wrote(frames + out, ops + more, peer, false) && OwnOps(ops + more, id, false)
    ensures Sent(ops + more, id) == Sent(ops, id) + data
  {
    WroteAppend(frames, ops, out, more, peer, false);
    SentAppend(ops, more, id);
  }

  lemma EndLogged(frames: seq<bytes>, ops: seq<Op>, id: nat, peer: Peer, op: Op, frame: bytes, followup: bool)
    requires Wrote(frames, ops, peer, false) && OwnOps(ops, id, false)
    requires op.End? && op.id == id && CanWrite(op, peer, followup) && frame == FrameBytes(op, peer, followup)
    ensures Wrote(frames + [frame], ops + [op], peer, false) && OwnOps(ops + [op], id, true) && Sent(ops + [op], id) == Sent(ops, id)
  {
    WroteSnoc(frames, ops, peer, false, op, frame);
    SentAppend(ops, [op], id);
    var one: seq<Op> := [op];
    assert one[1..] == [];
    NilRight(Sent(ops, id));
  }

  lemma NotNone(mb: MultiBuffer)
    requires Flat(mb) != []
    ensures |mb| > 0
  {
  }

  class Writer {
    const id: nat
    const peer: Peer
    const packet: bool
    var followup: bool
    var hasError: bool
    /** History: the frames written and what they stand for, the payload given, whether it is closed and whether a write failed. */
    ghost var frames: seq<bytes>
    ghost var ops: seq<Op>
    ghost var given: bytes
    ghost var closed: bool
    ghost var failed: bool

    /** Until a write fails, or comes after Close, the frames carry exactly the payload given. */
    ghost predicate Logged()
      reads this
    {
      !failed ==>
        && Wrote(frames, ops, peer, false) && OwnOps(ops, id, closed) && Sent(ops, id) == given
        && (followup <==> |ops| > if closed then 1 else 0)
    }

    constructor (id: nat, peer: Peer)
      ensures this.id == id && this.peer == peer && packet == (peer.dest.network == Udp) && !followup && !hasError
      ensures Logged() && frames == [] && given == [] && !closed && !failed
    {
      this.id, this.peer, packet := id, peer, peer.dest.network == Udp;
      followup, hasError := false, false;
      frames, ops, given, closed, failed := [], [], [], false, false;
    }

    /** One frame; the session is open from the first attempt on. */
    method Emit(op: Op) returns (frame: Option<bytes>)
      requires op.id == id && !op.End?
      modifies this`followup
      ensures followup
      ensures frame == if CanWrite(op, peer, old(followup)) then Some(FrameBytes(op, peer, old(followup))) else None
    {
      hide Encode;
      var meta := MetaOf(op, peer, followup);
      followup := true;
      var header := WriteTo(meta, UdpOf(op));
      if header.None? {
        return None;
      }
      frame := Some(header.value + PayloadOf(op));
    }

    /** The next frame's payload: up to one buffer of a stream, or exactly the next packet. */
    method NextChunk(mb: MultiBuffer) returns (rest: MultiBuffer, chunk: bytes)
      requires Valid(mb) && Small(mb) && Flat(mb) != []
      ensures Valid(rest) && Small(rest) && |chunk| <= SIZE && chunk + Flat(rest) == Flat(mb)
      ensures |Flat(rest)| < |Flat(mb)| || |rest| < |mb|
      ensures packet ==> chunk == mb[0].data && rest == mb[1..]
    {
      if packet {
        var first;
        rest, first := SplitFirst(mb);
        chunk := first[0].data;
        assert first == [mb[0]] && rest == mb[1..];
      } else {
        var front;
        rest, front := SplitSize(mb, SIZE);
        chunk := Flatten(front);
      }
    }

    /**
     * WriteMultiBuffer: the whole list (each packet with its own address), cut into frames whose payloads are its bytes in
     * order; an empty list becomes a bare header.
     */
    method WriteMultiBuffer(mb: MultiBuffer, udps: seq<Option<Destination>>) returns (ok: bool, out: seq<bytes>)
      requires Logged() && Valid(mb) && Small(mb) && |udps| == |mb|
      modifies this`followup, this`frames, this`ops, this`given, this`failed
      ensures Logged() && frames == old(frames) + out && given == old(given) + Flat(mb)
      ensures failed == (old(failed) || closed || !ok)
      ensures !ok ==> exists op: Op, f: bool :: op.id == id && !op.End? && !CanWrite(op, peer, f)
    {
      hide Wrote, Sent, Flat, Valid, Small, CanWrite;
      ghost var more;
      ok, out, more := WriteList(mb, udps);
      if ok && !failed && !closed {
        Extended(frames, ops, out, more, id, peer, Flat(mb));
      }
      failed := failed || closed || !ok;
      frames, ops, given := frames + out, ops + more, given + Flat(mb);
    }

    method WriteList(mb: MultiBuffer, udps: seq<Option<Destination>>) returns (ok: bool, frames: seq<bytes>, ghost ops: seq<Op>)
      requires Valid(mb) && Small(mb) && |udps| == |mb|
      modifies this`followup
      ensures Wrote(frames, ops, peer, old(followup))
      ensures ok ==> followup && Sent(ops, id) == Flat(mb)
      ensures ok ==> OwnOps(ops, id, false) && ops != []
      ensures ok ==> if Flat(mb) == [] then ops == [Bare(id)] else AllData(ops, id)
      ensures !ok ==> exists op: Op :: op.id == id && !op.End? && !CanWrite(op, peer, old(followup) || |ops| > 0)
    {
      frames, ops := [], [];
      var empty := IsEmpty(mb);
      if empty {
        ghost var op := Bare(id);
        var frame := Emit(Bare(id));
        ok := frame.Some?;
        if ok {
          WroteSnoc(frames, ops, peer, old(followup), op, frame.value);
          frames, ops := [] + [frame.value], [] + [op];
          assert Sent(ops, id) == [];
        }
        return;
      }
      ok, frames, ops := WriteChunks(mb, udps);
    }

    method WriteChunks(mb: MultiBuffer, udps: seq<Option<Destination>>) returns (ok: bool, frames: seq<bytes>, ghost ops: seq<Op>)
      requires Valid(mb) && Small(mb) && |udps| == |mb| && Flat(mb) != []
      modifies this`followup
      ensures Wrote(frames, ops, peer, old(followup)) && AllData(ops, id)
      ensures ok ==> followup && Sent(ops, id) == Flat(mb) && ops != []
      ensures !ok ==> exists op: Op :: op.id == id && !op.End? && !CanWrite(op, peer, old(followup) || |ops| > 0)
    {
      hide Writing, CanWrite, FrameBytes;
      frames, ops, ok := [], [], true;
      var left, addresses := mb, udps;
      WritingNone(id, peer, followup, Flat(mb));
      var empty := false;
      while !empty
        invariant Valid(left) && Small(left) && Writing(frames, ops, id, peer, old(followup), Flat(left), Flat(mb))
        invariant empty <==> Flat(left) == []
        invariant followup == (old(followup) || |ops| > 0)
        invariant packet ==> |left| == |addresses|
        decreases |Flat(left)|, |left|
      {
        hide Flat, Valid, Small;
        var rest, chunk := NextChunk(left);
        NotNone(left);
        var op := Data(id, chunk, if packet then addresses[0] else None);
        var frame := Emit(op);
        if frame.None? {
          ok := false;
          Written(frames, ops, id, peer, old(followup), Flat(left), Flat(mb));
          return;
        }
        WritingNext(frames, ops, id, peer, old(followup), Flat(left), Flat(mb), op, frame.value, Flat(rest));
        frames, ops := frames + [frame.value], ops + [op];
        left := rest;
        if packet {
          addresses := addresses[1..];
        }
        empty := IsEmpty(left);
      }
      Written(frames, ops, id, peer, old(followup), Flat(left), Flat(mb));
    }

    /** Close: one End frame, marked if there was an error. */
    method Close() returns (frame: Option<bytes>)
      requires Logged()
      modifies this`frames, this`ops, this`closed, this`failed
      ensures frame == if CanWrite(End(id, hasError), peer, followup) then Some(FrameBytes(End(id, hasError), peer, followup)) else None
      ensures frame.Some? && frames == old(frames) + [frame.value]
      ensures Logged() && closed && failed == (old(failed) || old(closed))
    {
      frame := WriteTo(MetaOf(End(id, hasError), peer, followup), None);
      NilRight(frame.value);
      ghost var op := End(id, hasError);
      if !failed && !closed {
        EndLogged(frames, ops, id, peer, op, frame.value, followup);
      }
      failed := failed || closed;
      frames, ops, closed := frames + [frame.value], ops + [op], true;
    }
  }

  /** Reads the length, then exactly that many bytes, then the fields out of them. */
  method Unmarshal(r: BufferedReader, readSourceAndLocal: bool, parse: bytes -> Address) returns (m: Option<Meta>)
    requires r.Valid()
    modifies r
    ensures r.Valid()
    ensures match Decode(old(r.Stream()), readSourceAndLocal, parse)
            case Fail => m == None
            case Got(v, rest) => m == Some(v) && r.Stream() == rest
  {
    hide DecodeBody;
    ghost var s := r.Stream();
    var b, e := ReadFull(r, 2);
    if e != NoError {
      return None;
    }
    var n := U16(b[0], b[1]);
    assert b[0] == s[0] && b[1] == s[1];
    if n > 512 {
      return None;
    }
    b, e := ReadFull(r, n);
    if e != NoError {
      return None;
    }
    assert s[2..][..n] == s[2..2 + n] && s[2..][n..] == s[2 + n..];
    m := UnmarshalFromBuffer(b, readSourceAndLocal, parse);
  }

  /** Fills the fields of the metadata one after another, advancing through the buffer. */
  method UnmarshalFromBuffer(buffer: bytes, readSourceAndLocal: bool, parse: bytes -> Address) returns (m: Option<Meta>)
    ensures m == DecodeBody(buffer, readSourceAndLocal, parse)
  {
    hide ReadDest, Zeros;
    if |buffer| < 4 {
      return None;
    }
    var f := Meta(U16(buffer[0], buffer[1]), buffer[2], buffer[3], NOWHERE, Zeros(8), None);
    var b := buffer[4..];
    if f.status == NEW || (f.status == KEEP && |b| > 0 && b[0] == 2) {
      if |buffer| < 8 {
        return None;
      }
      var target := ReadDest(b, parse);
      if target.Fail? {
        return None;
      }
      f := f.(target := target.value);
      b := target.rest;
    }
    if f.status == NEW && readSourceAndLocal {
      var i := Inbound(NOWHERE, NOWHERE);
      if |b| == 0 || b[0] == 0 {
        return Some(f.(inbound := Some(i)));
      }
      var source := ReadDest(b, parse);
      if source.Fail? {
        return None;
      }
      i := i.(source := source.value);
      b := source.rest;
      if |b| == 0 || b[0] == 0 {
        return Some(f.(inbound := Some(i)));
      }
      var local := ReadDest(b, parse);
      if local.Fail? {
        return None;
      }
      i := i.(local := local.value);
      return Some(f.(inbound := Some(i)));
    }
    if f.status == NEW && f.option % 2 == 1 && f.target.network == Udp && |b| >= 8 {
      f := f.(globalID := b[..8]);
    }
    m := Some(f);
  }

  datatype Handling = Done | Error | PacketSession

  class ServerWorker {
    const reader: BufferedReader
    const reverse: bool
    const parse: bytes -> Address
    var sessions: map<nat, bool>
    var outputs: map<nat, bytes>
    var ended: set<nat>
    var notices: seq<nat>

    ghost function Value(): Server
      reads this
    {
      Server(sessions, outputs, ended, notices)
    }

    constructor (reader: BufferedReader, reverse: bool, parse: bytes -> Address)
      ensures this.reader == reader && this.reverse == reverse && this.parse == parse && Value() == Server(map[], map[], {}, [])
    {
      this.reader, this.reverse, this.parse := reader, reverse, parse;
      sessions, outputs, ended, notices := map[], map[], {}, [];
    }

    /** The state and the stream after a turn. */
    ghost predicate After(turn: Turn, h: Handling)
      reads this, reader
    {
      match turn
      case Broken => h == Error
      case Xudp => h == PacketSession
      case Handled(server, rest) => h == Done && Value() == server && reader.Stream() == rest
    }

    method DiscardPayload() returns (h: Handling)
      requires reader.Valid()
      modifies reader
      ensures reader.Valid() && After(Discard(Value(), old(reader.Stream())), h)
    {
      hide StreamPayload;
      var _, e := CopyStreamPayload(reader);
      h := if e == NoError then Done else Error;
    }

    method ReceivePayload(id: nat) returns (h: Handling)
      requires reader.Valid() && id in sessions && id in outputs && Consistent(Value())
      modifies this`outputs, reader
      ensures Consistent(Value())
      ensures reader.Valid() && After(Receive(old(Value()), id, old(reader.Stream())), h)
    {
      hide StreamPayload, PacketPayload;
      var data, e;
      if sessions[id] {
        data, e := CopyPacketPayload(reader);
      } else {
        data, e := CopyStreamPayload(reader);
      }
      if e != NoError {
        return Error;
      }
      outputs := outputs[id := outputs[id] + data];
      h := Done;
    }

    method HandleStatusNew(m: Meta) returns (h: Handling)
      requires reader.Valid() && Consistent(Value())
      modifies this`sessions, this`outputs, reader
      ensures Consistent(Value())
      ensures reader.Valid() && After(HandleNew(old(Value()), m, old(reader.Stream())), h)
    {
      hide Receive, Zeros;
      if m.globalID != Zeros(8) {
        return PacketSession;
      }
      sessions := sessions[m.id := m.target.network == Udp];
      outputs := outputs[m.id := []];
      if m.option % 2 == 0 {
        return Done;
      }
      h := ReceivePayload(m.id);
    }

    method HandleStatusKeep(m: Meta) returns (h: Handling)
      requires reader.Valid() && Consistent(Value())
      modifies this`outputs, this`notices, reader
      ensures Consistent(Value())
      ensures reader.Valid() && After(HandleKeep(old(Value()), m, old(reader.Stream())), h)
    {
      hide Receive, Discard;
      if m.option % 2 == 0 {
        return Done;
      }
      if m.id !in sessions {
        notices := notices + [m.id];
        h := DiscardPayload();
        return;
      }
      h := ReceivePayload(m.id);
    }

    method HandleStatusEnd(m: Meta) returns (h: Handling)
      requires reader.Valid() && Consistent(Value())
      modifies this`sessions, this`ended, reader
      ensures Consistent(Value())
      ensures reader.Valid() && After(HandleEnd(old(Value()), m, old(reader.Stream())), h)
    {
      hide Discard;
      if m.id in sessions {
        sessions, ended := sessions - {m.id}, ended + {m.id};
      }
      if m.option % 2 == 1 {
        h := DiscardPayload();
      } else {
        h := Done;
      }
    }

    method HandleFrame() returns (h: Handling)
      requires reader.Valid() && Consistent(Value())
      modifies this, reader
      ensures reader.Valid() && After(MuxLink.HandleFrame(old(Value()), old(reader.Stream()), reverse, parse), h)
      ensures Consistent(Value()) && (Decode(old(reader.Stream()), reverse, parse).Fail? ==> Value() == old(Value()))
    {
      hide Decode, HandleNew, HandleKeep, HandleEnd, Discard;
      var m := Unmarshal(reader, reverse, parse);
      if m.None? {
        return Error;
      }
      if m.value.status == KEEP_ALIVE {
        if m.value.option % 2 == 1 {
          h := DiscardPayload();
        } else {
          h := Done;
        }
      } else if m.value.status == END {
        h := HandleStatusEnd(m.value);
      } else if m.value.status == NEW {
        h := HandleStatusNew(m.value);
      } else if m.value.status == KEEP {
        h := HandleStatusKeep(m.value);
      } else {
        h := Error;
      }
    }

    /** Frame after frame until one fails; `clean` when that is the end of the link between two frames. */
    method Run() returns (ghost clean: bool)
      requires reader.Valid() && Consistent(Value())
      modifies this, reader
      ensures reader.Valid()
      ensures var run := Serve(old(Value()), old(reader.Stream()), reverse, parse);
              (clean <==> run.Served?) && (clean ==> Value() == run.server)
    {
      ghost var first, link := Value(), reader.Stream();
      var h := Done;
      clean := false;
      while h == Done
        invariant reader.Valid() && Consistent(Value())
        invariant h == Done ==> Serve(first, link, reverse, parse) == Serve(Value(), reader.Stream(), reverse, parse)
        invariant h != Done ==> (clean <==> Serve(first, link, reverse, parse).Served?) && (clean ==> Value() == Serve(first, link, reverse, parse).server)
        decreases if h == Done then 1 else 0, |reader.Stream()|
      {
        hide MuxLink.HandleFrame;
        ghost var before, s := Value(), reader.Stream();
        if MuxLink.HandleFrame(before, s, reverse, parse).Handled? {
          HandledShrinks(before, s, reverse, parse);
        }
        h := HandleFrame();
        clean := h != Done && s == [];
      }
    }
  }
}
