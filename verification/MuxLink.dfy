/**
 * The mux connection: any number of writers put frames on one link in any interleaving, and the server hands each
 * session's payload to that session's output.
 */
module MuxLink {
  import opened Bytes
  import opened Options
  import opened NetAddress
  import opened MuxFrame
  import BufferedReading
  import opened MuxReaders

  // ---- The server ----

  /** The open sessions and whether they carry packets; what each session's output received; sessions told to end again. */
  datatype Server = Server(sessions: map<nat, bool>, outputs: map<nat, bytes>, ended: set<nat>, notices: seq<nat>)

  /** One turn of the loop: an error that ends the connection, a frame of the packet-session protocol, or a handled frame. */
  datatype Turn = Broken | Xudp | Handled(server: Server, rest: bytes)

  function Discard(server: Server, s: bytes): Turn {
    var p := StreamPayload(s);
    if p.error == BufferedReading.NoError then Handled(server, p.rest) else Broken
  }

  /** Copies one payload to the output of an open session. */
  function Receive(server: Server, id: nat, s: bytes): Turn
    requires id in server.sessions && id in server.outputs
  {
    var p := if server.sessions[id] then PacketPayload(s) else StreamPayload(s);
    if p.error == BufferedReading.NoError then Handled(server.(outputs := server.outputs[id := server.outputs[id] + p.data]), p.rest)
    else Broken
  }

  function Opened(server: Server, m: Meta): Server {
    server.(sessions := server.sessions[m.id := m.target.network == Udp], outputs := server.outputs[m.id := []])
  }

  function Closed(server: Server, id: nat): Server {
    if id in server.sessions then server.(sessions := server.sessions - {id}, ended := server.ended + {id}) else server
  }

  function HandleNew(server: Server, m: Meta, s: bytes): Turn {
    if m.globalID != Zeros(8) then Xudp
    else if HasData(m) then Receive(Opened(server, m), m.id, s)
    else Handled(Opened(server, m), s)
  }

  function HandleKeep(server: Server, m: Meta, s: bytes): Turn
    requires m.id in server.sessions ==> m.id in server.outputs
  {
    if !HasData(m) then Handled(server, s)
    else if m.id in server.sessions then Receive(server, m.id, s)
    else Discard(server.(notices := server.notices + [m.id]), s)
  }

  function HandleEnd(server: Server, m: Meta, s: bytes): Turn {
    if HasData(m) then Discard(Closed(server, m.id), s) else Handled(Closed(server, m.id), s)
  }

  predicate Consistent(server: Server) {
    server.sessions.Keys <= server.outputs.Keys
  }

  function HandleFrame(server: Server, s: bytes, reverse: bool, parse: bytes -> Address): Turn
    requires Consistent(server)
  {
    match Decode(s, reverse, parse)
    case Fail => Broken
    case Got(m, rest) =>
      if m.status == KEEP_ALIVE then if HasData(m) then Discard(server, rest) else Handled(server, rest)
      else if m.status == END then HandleEnd(server, m, rest)
      else if m.status == NEW then HandleNew(server, m, rest)
      else if m.status == KEEP then HandleKeep(server, m, rest)
      else Broken
  }

  lemma PayloadShrinks(s: bytes)
    ensures |StreamPayload(s).rest| <= |s| && |PacketPayload(s).rest| <= |s|
  {
  }

  /** A handled frame has taken its header off the stream, at least. */
  lemma HandledShrinks(server: Server, s: bytes, reverse: bool, parse: bytes -> Address)
    requires Consistent(server) && HandleFrame(server, s, reverse, parse).Handled?
    ensures |HandleFrame(server, s, reverse, parse).rest| < |s| && Consistent(HandleFrame(server, s, reverse, parse).server)
  {
    hide StreamPayload, PacketPayload, DecodeBody;
    PayloadShrinks(Decode(s, reverse, parse).rest);
  }

  datatype Run = Stopped | Served(server: Server)

  /** The server's loop up to the end of the link. */
  function Serve(server: Server, s: bytes, reverse: bool, parse: bytes -> Address): Run
    requires Consistent(server)
    decreases |s|
  {
    if s == [] then Served(server)
    else match HandleFrame(server, s, reverse, parse)
      case Handled(server', rest) => HandledShrinks(server, s, reverse, parse); Serve(server', rest, reverse, parse)
      case _ => Stopped
  }

  // ---- One whole frame ----

  /** The payload of a frame, or of a frame that the end of the link cut short. */
  function WholePayload(s: bytes): Option<nat> {
    if |s| >= 2 && |s| >= 2 + U16(s[0], s[1]) then Some(2 + U16(s[0], s[1])) else None
  }

  /**
   * A handler that reports no error has taken exactly one frame off the stream: the header, and with the data option the
   * size and that many bytes. The only exception is a link that ends inside the payload, of which it then leaves nothing.
   */
  lemma TakesOneFrame(server: Server, s: bytes, reverse: bool, parse: bytes -> Address)
    requires Consistent(server) && HandleFrame(server, s, reverse, parse).Handled?
    ensures Decode(s, reverse, parse).Got?
    ensures var d := Decode(s, reverse, parse);
            var rest := HandleFrame(server, s, reverse, parse).rest;
            if !HasData(d.value) then rest == d.rest
            else match WholePayload(d.rest) case Some(n) => rest == d.rest[n..] case None => rest == []
  {
    hide Decode, HandleKeep, HandleEnd, HandleNew, Discard, WholePayload, HasData;
    var d := Decode(s, reverse, parse);
    DiscardTakes(server, d.rest);
    HandlersTake(server, d.value, d.rest);
  }

  lemma CutLinkHeader(reverse: bool, parse: bytes -> Address, payload: bytes)
    ensures Decode([0, 4, 0, 1, KEEP, OPTION_DATA] + payload, reverse, parse) ==
            Got(Meta(1, KEEP, OPTION_DATA, NOWHERE, Zeros(8), None), payload)
  {
    hide Zeros;
    var s: bytes := [0, 4, 0, 1, KEEP, OPTION_DATA] + payload;
    var body: bytes := [0, 1, KEEP, OPTION_DATA];
    assert s[2..6] == body && s[6..] == payload;
  }

  /** The exception is real: a link that ends two bytes into a payload of five is handled without an error. */
  lemma CutLinkIsHandled(reverse: bool, parse: bytes -> Address)
    ensures var payload: bytes := [0, 5, 7, 7];
            && WholePayload(payload) == None
            && HandleFrame(Server(map[1 := false], map[1 := []], {}, []), [0, 4, 0, 1, KEEP, OPTION_DATA] + payload, reverse, parse)
            == Handled(Server(map[1 := false], map[1 := [7, 7]], {}, []), [])
  {
    var payload, two: bytes := [0, 5, 7, 7], [7, 7];
    var server := Server(map[1 := false], map[1 := []], {}, []);
    CutLinkHeader(reverse, parse, payload);
    CutPayload(payload, two);
    hide Decode, Zeros, StreamPayload, PacketPayload;
    assert server.outputs[1] + two == two;
    assert server.outputs[1 := two] == map[1 := two];
    assert Receive(server, 1, payload) == Handled(server.(outputs := map[1 := two]), []);
  }

  lemma CutPayload(payload: bytes, two: bytes)
    requires payload == [0, 5] + two && |two| == 2
    ensures StreamPayload(payload) == Payload(BufferedReading.NoError, two, [])
  {
    assert payload[2..4] == two && payload[4..] == [];
  }

  /** What a payload leaves of the stream. */
  function Left(s: bytes): bytes {
    match WholePayload(s) case Some(n) => s[n..] case None => []
  }

  lemma DiscardTakes(server: Server, s: bytes)
    ensures Discard(server, s).Handled? ==> Discard(server, s).rest == Left(s)
  {
    PayloadWhole(s);
    hide StreamPayload, WholePayload;
  }

  lemma ReceiveTakes(server: Server, id: nat, s: bytes)
    requires id in server.sessions && id in server.outputs
    ensures Receive(server, id, s).Handled? ==> Receive(server, id, s).rest == Left(s)
  {
    PayloadWhole(s);
    hide StreamPayload, PacketPayload, WholePayload;
  }

  lemma HandlersTake(server: Server, m: Meta, s: bytes)
    requires Consistent(server)
    ensures HandleKeep(server, m, s).Handled? ==> HandleKeep(server, m, s).rest == if HasData(m) then Left(s) else s
    ensures HandleEnd(server, m, s).Handled? ==> HandleEnd(server, m, s).rest == if HasData(m) then Left(s) else s
    ensures HandleNew(server, m, s).Handled? ==> HandleNew(server, m, s).rest == if HasData(m) then Left(s) else s
  {
    hide Discard, Receive, Left, HasData;
    if m.id in server.sessions {
      ReceiveTakes(server, m.id, s);
    }
    ReceiveTakes(Opened(server, m), m.id, s);
    DiscardTakes(server.(notices := server.notices + [m.id]), s);
    DiscardTakes(Closed(server, m.id), s);
  }

  lemma PayloadWhole(s: bytes)
    ensures StreamPayload(s).rest == match WholePayload(s) case Some(n) => s[n..] case None => []
    ensures PacketPayload(s).error == BufferedReading.NoError ==>
              PacketPayload(s).rest == match WholePayload(s) case Some(n) => s[n..] case None => []
  {
  }

  // ---- The writers ----

  /** A writer's side of a session: where it goes, and the inbound addresses of a reverse connection. */
  datatype Peer = Peer(dest: Destination, inbound: Option<Inbound>)

  /** A frame as a writer puts it on the link in one write. */
  datatype Op = Bare(id: nat) | Data(id: nat, chunk: bytes, udp: Option<Destination>) | End(id: nat, error: bool)

  function StatusOf(followup: bool): byte {
    if followup then KEEP else NEW
  }

  function MetaOf(op: Op, peer: Peer, followup: bool): Meta {
    match op
    case Bare(id) => Meta(id, StatusOf(followup), 0, peer.dest, Zeros(8), peer.inbound)
    case Data(id, _, _) => Meta(id, StatusOf(followup), OPTION_DATA, peer.dest, Zeros(8), peer.inbound)
    case End(id, error) => Meta(id, END, if error then OPTION_ERROR else 0, NOWHERE, Zeros(8), None)
  }

  function UdpOf(op: Op): Option<Destination> {
    if op.Data? then op.udp else None
  }

  function PayloadOf(op: Op): bytes {
    if op.Data? then WritePort(|op.chunk|) + op.chunk else []
  }

  predicate CanWrite(op: Op, peer: Peer, followup: bool) {
    Encode(MetaOf(op, peer, followup), UdpOf(op)).Some?
  }

  function FrameBytes(op: Op, peer: Peer, followup: bool): bytes
    requires CanWrite(op, peer, followup)
  {
    Encode(MetaOf(op, peer, followup), UdpOf(op)).value + PayloadOf(op)
  }

  /** The frames the two ends agree on: readable addresses, metadata of at most 512 bytes, payloads of at most one buffer. */
  predicate Acceptable(op: Op, peer: Peer, followup: bool, reverse: bool, parse: bytes -> Address) {
    && Understood(MetaOf(op, peer, followup), UdpOf(op), reverse, parse)
    && CanWrite(op, peer, followup) && |EncodeBody(MetaOf(op, peer, followup), UdpOf(op)).value| <= 512
    && (op.Data? ==> |op.chunk| <= SIZE)
  }

  // ---- One frame through the link ----

  /** What a frame means to the server. */
  function Effect(server: Server, op: Op, peer: Peer, followup: bool): Server
    requires followup && op.Data? ==> op.id in server.outputs
  {
    if op.End? then Closed(server, op.id)
    else
      var begun := if followup then server else server.(sessions := server.sessions[op.id := peer.dest.network == Udp], outputs := server.outputs[op.id := []]);
      if op.Data? then begun.(outputs := begun.outputs[op.id := begun.outputs[op.id] + op.chunk]) else begun
  }

  lemma PayloadArrives(chunk: bytes, rest: bytes)
    requires |chunk| <= SIZE
    ensures StreamPayload(WritePort(|chunk|) + chunk + rest) == Payload(BufferedReading.NoError, chunk, rest)
    ensures PacketPayload(WritePort(|chunk|) + chunk + rest) == Payload(BufferedReading.NoError, chunk, rest)
  {
    U16RoundTrip(|chunk|);
    var n, s := |chunk|, WritePort(|chunk|) + chunk + rest;
    assert s[0] == Hi(n) && s[1] == Lo(n) && s[2..2 + n] == chunk && s[2 + n..] == rest;
  }

  lemma LearnedParts(op: Op, peer: Peer, followup: bool, reverse: bool) returns (m: Meta)
    ensures m == Learned(MetaOf(op, peer, followup), UdpOf(op), reverse)
    ensures m.id == op.id && m.status == (if op.End? then END else StatusOf(followup)) && (HasData(m) <==> op.Data?)
    ensures m.globalID == Zeros(8) && (m.status == NEW ==> m.target == peer.dest)
  {
    hide Zeros;
    m := Learned(MetaOf(op, peer, followup), UdpOf(op), reverse);
  }

  /** The header arrives as it was sent; a new session keeps its network, and has no global identifier. */
  lemma HeaderArrives(op: Op, peer: Peer, followup: bool, reverse: bool, parse: bytes -> Address, rest: bytes) returns (m: Meta)
    requires Acceptable(op, peer, followup, reverse, parse)
    ensures Decode(FrameBytes(op, peer, followup) + rest, reverse, parse) == Got(m, PayloadOf(op) + rest)
    ensures m.id == op.id && m.status == (if op.End? then END else StatusOf(followup)) && (HasData(m) <==> op.Data?)
    ensures m.globalID == Zeros(8) && (m.status == NEW ==> m.target == peer.dest)
  {
    hide Encode, EncodeBody, Decode, Understood, Learned, MetaOf, UdpOf, PayloadOf, Zeros, HasData;
    m := LearnedParts(op, peer, followup, reverse);
    var sent, udp := MetaOf(op, peer, followup), UdpOf(op);
    FrameRoundTrip(sent, udp, reverse, parse, PayloadOf(op) + rest);
    Assoc(Encode(sent, udp).value, PayloadOf(op), rest);
  }

  /** A payload of at most one buffer reaches the output whole, whichever way the session reads. */
  lemma ReceiveWhole(server: Server, id: nat, chunk: bytes, rest: bytes)
    requires id in server.sessions && id in server.outputs && |chunk| <= SIZE
    ensures Receive(server, id, WritePort(|chunk|) + chunk + rest) ==
            Handled(server.(outputs := server.outputs[id := server.outputs[id] + chunk]), rest)
  {
    PayloadArrives(chunk, rest);
  }

  lemma DataEffect(server: Server, op: Op, m: Meta, peer: Peer, followup: bool, rest: bytes)
    requires op.Data? && |op.chunk| <= SIZE && HasData(m) && m.id == op.id && Consistent(server)
    requires m.globalID == Zeros(8) && (!followup ==> m.target == peer.dest)
    requires followup ==> op.id in server.sessions
    ensures (if followup then HandleKeep(server, m, PayloadOf(op) + rest) else HandleNew(server, m, PayloadOf(op) + rest))
         == Handled(Effect(server, op, peer, followup), rest)
  {
    hide Receive, Zeros, WritePort, HasData;
    if followup {
      ReceiveWhole(server, op.id, op.chunk, rest);
    } else {
      ReceiveWhole(Opened(server, m), op.id, op.chunk, rest);
    }
  }

  lemma BareEffect(server: Server, op: Op, m: Meta, peer: Peer, followup: bool, rest: bytes)
    requires !op.Data? && !HasData(m) && m.id == op.id && Consistent(server)
    requires m.globalID == Zeros(8) && (!followup && !op.End? ==> m.target == peer.dest)
    ensures (if op.End? then HandleEnd(server, m, PayloadOf(op) + rest)
             else if followup then HandleKeep(server, m, PayloadOf(op) + rest) else HandleNew(server, m, PayloadOf(op) + rest))
         == Handled(Effect(server, op, peer, followup), rest)
  {
    hide Receive, Zeros, HasData;
    assert [] + rest == rest;
  }

  lemma ChunkBounded(op: Op, peer: Peer, followup: bool, reverse: bool, parse: bytes -> Address)
    requires Acceptable(op, peer, followup, reverse, parse)
    ensures op.Data? ==> |op.chunk| <= SIZE
    ensures CanWrite(op, peer, followup)
  {
    hide Understood, CanWrite, Encode, EncodeBody;
  }

  /** Any acceptable frame at the front of the link is handled, has its effect, and leaves the rest of the link. */
  lemma OneFrame(server: Server, op: Op, peer: Peer, followup: bool, reverse: bool, parse: bytes -> Address, rest: bytes)
    requires Consistent(server) && Acceptable(op, peer, followup, reverse, parse)
    requires !op.End? && followup ==> op.id in server.sessions
    ensures CanWrite(op, peer, followup)
    ensures HandleFrame(server, FrameBytes(op, peer, followup) + rest, reverse, parse) == Handled(Effect(server, op, peer, followup), rest)
  {
    hide CanWrite, FrameBytes, Decode, Acceptable, Zeros, PayloadOf, HandleKeep, HandleNew, HandleEnd, Effect, HasData;
    ChunkBounded(op, peer, followup, reverse, parse);
    var m := HeaderArrives(op, peer, followup, reverse, parse, rest);
    if op.Data? {
      DataEffect(server, op, m, peer, followup, rest);
    } else {
      BareEffect(server, op, m, peer, followup, rest);
    }
  }

  // ---- A whole link ----

  /** Sessions that have sent a first frame, and sessions that are over. */
  datatype Progress = Progress(seen: set<nat>, over: set<nat>)

  function After(p: Progress, op: Op): Progress {
    if op.End? then p.(over := p.over + {op.id}) else p.(seen := p.seen + {op.id})
  }

  function AfterAll(p: Progress, ops: seq<Op>): Progress
    decreases |ops|
  {
    if ops == [] then p else AfterAll(After(p, ops[0]), ops[1..])
  }

  /** Any interleaving of the frames of any number of writers: one writer per identifier, and none writes after its End. */
  ghost predicate Interleaving(ops: seq<Op>, peers: map<nat, Peer>, p: Progress, reverse: bool, parse: bytes -> Address)
    decreases |ops|
  {
    ops == [] || (
      && ops[0].id in peers && ops[0].id !in p.over
      && Acceptable(ops[0], peers[ops[0].id], ops[0].id in p.seen, reverse, parse)
      && Interleaving(ops[1..], peers, After(p, ops[0]), reverse, parse))
  }

  /** The bytes on the link. */
  ghost function Link(ops: seq<Op>, peers: map<nat, Peer>, p: Progress, reverse: bool, parse: bytes -> Address): bytes
    requires Interleaving(ops, peers, p, reverse, parse)
    decreases |ops|
  {
    if ops == [] then []
    else
      ChunkBounded(ops[0], peers[ops[0].id], ops[0].id in p.seen, reverse, parse);
      FrameBytes(ops[0], peers[ops[0].id], ops[0].id in p.seen) + Link(ops[1..], peers, After(p, ops[0]), reverse, parse)
  }

  /** What one writer sent. */
  function Sent(ops: seq<Op>, id: nat): bytes
    decreases |ops|
  {
    if ops == [] then [] else (if ops[0].Data? && ops[0].id == id then ops[0].chunk else []) + Sent(ops[1..], id)
  }

  /** The server's view of who is there. */
  ghost predicate Matches(server: Server, p: Progress) {
    server.sessions.Keys == p.seen - p.over && server.outputs.Keys == p.seen
  }

  lemma EffectMatches(server: Server, op: Op, peer: Peer, p: Progress)
    requires Matches(server, p) && op.id !in p.over
    ensures Matches(Effect(server, op, peer, op.id in p.seen), After(p, op))
    ensures Effect(server, op, peer, op.id in p.seen).notices == server.notices
  {
  }

  /** One frame adds its payload to its own session's output and to no other. */
  lemma EffectOutput(server: Server, op: Op, peer: Peer, p: Progress, id: nat)
    requires Matches(server, p) && op.id !in p.over && id in After(p, op).seen
    ensures id in Effect(server, op, peer, op.id in p.seen).outputs
    ensures Effect(server, op, peer, op.id in p.seen).outputs[id] ==
            (if id in p.seen then server.outputs[id] else []) + if op.Data? && op.id == id then op.chunk else []
  {
    if id in p.seen {
      NilRight(server.outputs[id]);
    }
  }

  /** What the server had for a session, if anything. */
  function Had(server: Server, id: nat): bytes {
    if id in server.outputs then server.outputs[id] else []
  }

  lemma {:induction false} LinkServed(server: Server, ops: seq<Op>, peers: map<nat, Peer>, p: Progress, reverse: bool, parse: bytes -> Address)
    returns (last: Server)
    requires Matches(server, p) && Interleaving(ops, peers, p, reverse, parse)
    ensures Serve(server, Link(ops, peers, p, reverse, parse), reverse, parse) == Served(last)
    ensures Matches(last, AfterAll(p, ops)) && last.notices == server.notices
    ensures forall id :: id in last.outputs ==> last.outputs[id] == Had(server, id) + Sent(ops, id)
    decreases |ops|
  {
    hide Effect, FrameBytes, HandleFrame, Acceptable;
    if ops == [] {
      last := server;
      forall id | id in last.outputs ensures last.outputs[id] == Had(server, id) + Sent(ops, id) {
        NilRight(Had(server, id));
      }
    } else {
      var op, peer, followup := ops[0], peers[ops[0].id], ops[0].id in p.seen;
      var rest := Link(ops[1..], peers, After(p, op), reverse, parse);
      OneFrame(server, op, peer, followup, reverse, parse, rest);
      EffectMatches(server, op, peer, p);
      FrameNotEmpty(op, peer, followup);
      var server' := Effect(server, op, peer, followup);
      last := LinkServed(server', ops[1..], peers, After(p, op), reverse, parse);
      forall id | id in last.outputs ensures last.outputs[id] == Had(server, id) + Sent(ops, id) {
        SentNext(server, server', ops, peer, p, id, last.outputs[id]);
      }
    }
  }

  lemma FrameNotEmpty(op: Op, peer: Peer, followup: bool)
    requires CanWrite(op, peer, followup)
    ensures FrameBytes(op, peer, followup) != []
  {
    hide EncodeBody;
  }

  lemma SentNext(server: Server, server': Server, ops: seq<Op>, peer: Peer, p: Progress, id: nat, out: bytes)
    requires Matches(server, p) && ops != [] && ops[0].id !in p.over
    requires server' == Effect(server, ops[0], peer, ops[0].id in p.seen) && out == Had(server', id) + Sent(ops[1..], id)
    ensures out == Had(server, id) + Sent(ops, id)
  {
    EffectMatches(server, ops[0], peer, p);
    var own: bytes := if ops[0].Data? && ops[0].id == id then ops[0].chunk else [];
    if id in After(p, ops[0]).seen {
      EffectOutput(server, ops[0], peer, p, id);
    }
    assert Had(server', id) == Had(server, id) + own;
    Assoc(Had(server, id), own, Sent(ops[1..], id));
  }

  /**
   * Demultiplexing: over every interleaving of any number of writers' frames the server reads the link to its end without
   * an error; every session's output has received exactly the bytes its writer sent, in order; the sessions still open are
   * those whose writer has not sent its End; and no session was told to end.
   */
  lemma Demultiplexed(ops: seq<Op>, peers: map<nat, Peer>, reverse: bool, parse: bytes -> Address) returns (last: Server)
    requires Interleaving(ops, peers, Progress({}, {}), reverse, parse)
    ensures Serve(Server(map[], map[], {}, []), Link(ops, peers, Progress({}, {}), reverse, parse), reverse, parse) == Served(last)
    ensures forall id :: id in last.outputs <==> exists i :: 0 <= i < |ops| && ops[i].id == id && !ops[i].End?
    ensures forall id :: id in last.outputs ==> last.outputs[id] == Sent(ops, id)
    ensures forall id :: id in last.sessions <==>
              (exists i :: 0 <= i < |ops| && ops[i].id == id && !ops[i].End?) && !exists i :: 0 <= i < |ops| && ops[i] in {End(id, true), End(id, false)}
    ensures last.notices == []
  {
    last := LinkServed(Server(map[], map[], {}, []), ops, peers, Progress({}, {}), reverse, parse);
    AfterAllIs(Progress({}, {}), ops);
    hide Serve, Link, Interleaving, AfterAll;
    forall id | id in last.outputs ensures last.outputs[id] == Sent(ops, id) {
      assert [] + Sent(ops, id) == Sent(ops, id);
    }
  }

  lemma {:induction false} AfterAllIs(p: Progress, ops: seq<Op>)
    ensures forall id :: id in AfterAll(p, ops).seen <==> id in p.seen || exists i :: 0 <= i < |ops| && ops[i].id == id && !ops[i].End?
    ensures forall id :: id in AfterAll(p, ops).over <==> id in p.over || exists i :: 0 <= i < |ops| && ops[i] in {End(id, true), End(id, false)}
    decreases |ops|
  {
    if ops != [] {
      AfterAllIs(After(p, ops[0]), ops[1..]);
      assert ops == [ops[0]] + ops[1..];
    }
  }
}
