/** Any number of mux writers at one end of a link and the server's loop at the other. */
module MuxEnds {
  import opened Bytes
  import opened Options
  import opened NetAddress
  import opened BufferedReading
  import opened MuxFrame
  import opened MuxLink
  import opened MuxObjects

  // ---- Frames both ends agree on ----

  predicate ReadableUdp(udp: Option<Destination>, parse: bytes -> Address) {
    udp.Some? ==> udp.value.port < 0x1_0000 && Sized(udp.value.address) && Readable(udp.value.address, parse)
  }

  /** A session the other end can be told of: a readable target, and inbound addresses only on a reverse link, and only IPs. */
  predicate GoodPeer(id: nat, peer: Peer, reverse: bool, parse: bytes -> Address) {
    && id < 0x1_0000 && ReadableDest(peer.dest, parse)
    && (peer.inbound.Some? ==>
          && reverse && ReadableInbound(peer.inbound.value, parse)
          && AtIP(peer.inbound.value.source) && AtIP(peer.inbound.value.local))
  }

  /** Every frame such a writer can write is acceptable: the limit of 512 bytes is never reached. */
  lemma GoodOp(op: Op, peer: Peer, followup: bool, reverse: bool, parse: bytes -> Address)
    requires GoodPeer(op.id, peer, reverse, parse) && ReadableUdp(UdpOf(op), parse) && (op.Data? ==> |op.chunk| <= SIZE)
    ensures Acceptable(op, peer, followup, reverse, parse)
  {
    var m, udp := MetaOf(op, peer, followup), UdpOf(op);
    assert Understood(m, udp, reverse, parse) && InboundIPs(m);
    hide Understood, EncodeBody, Encode, Decode, Learned, InboundIPs, MetaOf, UdpOf;
    InboundIPsFit(m, udp, reverse, parse, []);
    FrameRoundTrip(m, udp, reverse, parse, []);
  }

  // ---- Lanes ----

  /** What one writer has put on the link and what it stands for, from its next frame on. */
  datatype Lane = Lane(frames: seq<bytes>, ops: seq<Op>)

  ghost predicate LaneOf(lane: Lane, id: nat, peer: Peer, followup: bool, reverse: bool, parse: bytes -> Address)
    decreases |lane.ops|
  {
    && |lane.frames| == |lane.ops|
    && (lane.ops != [] ==>
          && lane.ops[0].id == id && Acceptable(lane.ops[0], peer, followup, reverse, parse)
          && CanWrite(lane.ops[0], peer, followup) && lane.frames[0] == FrameBytes(lane.ops[0], peer, followup)
          && (lane.ops[0].End? ==> |lane.ops| == 1)
          && LaneOf(Tail(lane), id, peer, followup || !lane.ops[0].End?, reverse, parse))
  }

  function Tail(lane: Lane): Lane
    requires lane.frames != [] && lane.ops != []
  {
    Lane(lane.frames[1..], lane.ops[1..])
  }

  /** One more frame at the end of a lane that has not ended. */
  lemma {:induction false} LaneSnoc(lane: Lane, id: nat, peer: Peer, followup: bool, reverse: bool, parse: bytes -> Address, op: Op, frame: bytes)
    requires LaneOf(lane, id, peer, followup, reverse, parse) && (forall i :: 0 <= i < |lane.ops| ==> !lane.ops[i].End?)
    requires op.id == id && Acceptable(op, peer, followup || lane.ops != [], reverse, parse)
    requires CanWrite(op, peer, followup || lane.ops != []) && frame == FrameBytes(op, peer, followup || lane.ops != [])
    ensures LaneOf(Lane(lane.frames + [frame], lane.ops + [op]), id, peer, followup, reverse, parse)
    decreases |lane.ops|
  {
    var longer := Lane(lane.frames + [frame], lane.ops + [op]);
    hide Acceptable, CanWrite, FrameBytes;
    if lane.ops == [] {
      assert Tail(longer) == Lane([], []);
    } else {
      LaneSnoc(Tail(lane), id, peer, true, reverse, parse, op, frame);
      assert Tail(longer) == Lane(lane.frames[1..] + [frame], lane.ops[1..] + [op]);
    }
  }

  /** A writer's history is a lane. */
  lemma {:induction false} WrittenLane(frames: seq<bytes>, ops: seq<Op>, id: nat, peer: Peer, closed: bool, reverse: bool, parse: bytes -> Address)
    requires Wrote(frames, ops, peer, false) && OwnOps(ops, id, closed) && GoodPeer(id, peer, reverse, parse)
    requires forall i :: 0 <= i < |ops| ==> ReadableUdp(UdpOf(ops[i]), parse)
    ensures LaneOf(Lane(frames, ops), id, peer, false, reverse, parse)
    decreases |ops|
  {
    hide CanWrite, FrameBytes, Acceptable, GoodPeer, ReadableUdp;
    if ops != [] {
      var n := |ops| - 1;
      var op, frame := ops[n], frames[n];
      WrittenLane(frames[..n], ops[..n], id, peer, false, reverse, parse);
      GoodOp(op, peer, n > 0, reverse, parse);
      LaneSnoc(Lane(frames[..n], ops[..n]), id, peer, false, reverse, parse, op, frame);
      assert frames[..n] + [frame] == frames && ops[..n] + [op] == ops;
    }
  }

  // ---- Merging ----

  /** A schedule says whose frame comes next; it takes all frames of all lanes. */
  ghost predicate Schedules(schedule: seq<nat>, lanes: map<nat, Lane>)
    decreases |schedule|
  {
    if schedule == [] then forall id :: id in lanes ==> lanes[id].ops == []
    else
      var id := schedule[0];
      id in lanes && lanes[id].ops != [] && lanes[id].frames != [] && Schedules(schedule[1..], lanes[id := Tail(lanes[id])])
  }

  ghost function OnLink(schedule: seq<nat>, lanes: map<nat, Lane>): bytes
    requires Schedules(schedule, lanes)
    decreases |schedule|
  {
    if schedule == [] then []
    else var id := schedule[0]; lanes[id].frames[0] + OnLink(schedule[1..], lanes[id := Tail(lanes[id])])
  }

  ghost function OpsOf(schedule: seq<nat>, lanes: map<nat, Lane>): seq<Op>
    requires Schedules(schedule, lanes)
    decreases |schedule|
  {
    if schedule == [] then []
    else var id := schedule[0]; [lanes[id].ops[0]] + OpsOf(schedule[1..], lanes[id := Tail(lanes[id])])
  }

  /** Every lane goes on where its session stands. */
  ghost predicate Stand(lanes: map<nat, Lane>, peers: map<nat, Peer>, p: Progress, reverse: bool, parse: bytes -> Address) {
    forall id :: id in lanes ==>
      && id in peers && LaneOf(lanes[id], id, peers[id], id in p.seen, reverse, parse)
      && (id in p.over ==> lanes[id].ops == [])
  }

  lemma StandNext(lanes: map<nat, Lane>, peers: map<nat, Peer>, p: Progress, reverse: bool, parse: bytes -> Address, id: nat)
    requires Stand(lanes, peers, p, reverse, parse) && id in lanes && lanes[id].ops != [] && lanes[id].frames != []
    ensures Stand(lanes[id := Tail(lanes[id])], peers, After(p, lanes[id].ops[0]), reverse, parse)
    ensures id in peers && lanes[id].ops[0].id == id && id !in p.over
    ensures Acceptable(lanes[id].ops[0], peers[id], id in p.seen, reverse, parse)
    ensures CanWrite(lanes[id].ops[0], peers[id], id in p.seen)
    ensures lanes[id].frames[0] == FrameBytes(lanes[id].ops[0], peers[id], id in p.seen)
  {
    hide Acceptable, CanWrite, FrameBytes;
    var op := lanes[id].ops[0];
    assert LaneOf(lanes[id], id, peers[id], id in p.seen, reverse, parse);
    assert LaneOf(Tail(lanes[id]), id, peers[id], id in p.seen || !op.End?, reverse, parse);
  }

  /** The bytes of the merged frames are the link of an interleaving, and that has each writer's payload. */
  lemma {:induction false} MergedLink(schedule: seq<nat>, lanes: map<nat, Lane>, peers: map<nat, Peer>, p: Progress, reverse: bool, parse: bytes -> Address)
    requires Schedules(schedule, lanes) && Stand(lanes, peers, p, reverse, parse)
    ensures Interleaving(OpsOf(schedule, lanes), peers, p, reverse, parse)
    ensures Link(OpsOf(schedule, lanes), peers, p, reverse, parse) == OnLink(schedule, lanes)
    ensures forall id :: id in lanes ==> Sent(OpsOf(schedule, lanes), id) == Sent(lanes[id].ops, id)
    decreases |schedule|
  {
    if schedule != [] {
      var id := schedule[0];
      var op, lanes' := lanes[id].ops[0], lanes[id := Tail(lanes[id])];
      StandNext(lanes, peers, p, reverse, parse, id);
      hide Acceptable, CanWrite, FrameBytes, LaneOf;
      MergedLink(schedule[1..], lanes', peers, After(p, op), reverse, parse);
      var ops := OpsOf(schedule, lanes);
      assert ops[0] == op && ops[1..] == OpsOf(schedule[1..], lanes');
      forall k | k in lanes ensures Sent(ops, k) == Sent(lanes[k].ops, k) {
        assert Sent(ops[1..], k) == Sent(lanes'[k].ops, k);
        assert k != id ==> [] + Sent(ops[1..], k) == Sent(ops[1..], k);
      }
    }
  }

  // ---- The objects ----

  ghost function LanesOf(writers: map<nat, Writer>): map<nat, Lane>
    reads writers.Values
  {
    map id | id in writers :: Lane(writers[id].frames, writers[id].ops)
  }

  function PeersOf(writers: map<nat, Writer>): map<nat, Peer> {
    map id | id in writers :: writers[id].peer
  }

  /** Writers that have done nothing wrong, each under its own identifier. */
  ghost predicate GoodWriters(writers: map<nat, Writer>, reverse: bool, parse: bytes -> Address)
    reads writers.Values
  {
    forall id :: id in writers ==>
      var w := writers[id];
      && w.id == id && w.Logged() && !w.failed && GoodPeer(id, w.peer, reverse, parse)
      && forall i :: 0 <= i < |w.ops| ==> ReadableUdp(UdpOf(w.ops[i]), parse)
  }

  lemma WritersStand(writers: map<nat, Writer>, reverse: bool, parse: bytes -> Address)
    requires GoodWriters(writers, reverse, parse)
    ensures Stand(LanesOf(writers), PeersOf(writers), Progress({}, {}), reverse, parse)
  {
    hide Wrote, OwnOps, GoodPeer, ReadableUdp, LaneOf;
    forall id | id in writers ensures LaneOf(LanesOf(writers)[id], id, PeersOf(writers)[id], false, reverse, parse) {
      var w := writers[id];
      WrittenLane(w.frames, w.ops, id, w.peer, w.closed, reverse, parse);
    }
  }

  /** What each writer was given. */
  ghost function GivenTo(writers: map<nat, Writer>): map<nat, bytes>
    reads writers.Values
  {
    map id | id in writers :: writers[id].given
  }

  /** Every output is the payload given to a writer, and every writer that was given some has one. */
  ghost predicate Arrives(outputs: map<nat, bytes>, given: map<nat, bytes>) {
    && (forall id :: id in outputs ==> id in given && outputs[id] == given[id])
    && (forall id :: id in given && given[id] != [] ==> id in outputs)
  }

  /** The payload of every lane is what its writer was given. */
  ghost predicate Carries(lanes: map<nat, Lane>, peers: map<nat, Peer>, given: map<nat, bytes>) {
    && lanes.Keys == peers.Keys == given.Keys
    && forall id :: id in lanes ==> Sent(lanes[id].ops, id) == given[id]
  }

  lemma SentArrives(ops: seq<Op>, lanes: map<nat, Lane>, peers: map<nat, Peer>, given: map<nat, bytes>, outputs: map<nat, bytes>)
    requires Carries(lanes, peers, given) && (forall id :: id in lanes ==> Sent(ops, id) == Sent(lanes[id].ops, id))
    requires (forall id :: id in outputs ==> id in peers && outputs[id] == Sent(ops, id)) && (forall id :: Sent(ops, id) != [] ==> id in outputs)
    ensures Arrives(outputs, given)
  {
    hide Sent;
  }

  lemma LanesArrive(schedule: seq<nat>, lanes: map<nat, Lane>, peers: map<nat, Peer>, given: map<nat, bytes>, reverse: bool, parse: bytes -> Address)
    returns (last: Server)
    requires Schedules(schedule, lanes) && Stand(lanes, peers, Progress({}, {}), reverse, parse) && Carries(lanes, peers, given)
    ensures Serve(Server(map[], map[], {}, []), OnLink(schedule, lanes), reverse, parse) == Served(last)
    ensures last.notices == [] && Arrives(last.outputs, given)
  {
    hide Schedules, OnLink, Stand, Interleaving, Link, Serve, Sent, Carries, Arrives, OpsOf;
    MergedLink(schedule, lanes, peers, Progress({}, {}), reverse, parse);
    var ops := OpsOf(schedule, lanes);
    last := Demultiplexed(ops, peers, reverse, parse);
    OutputsOf(ops, peers, reverse, parse, last);
    SentArrives(ops, lanes, peers, given, last.outputs);
  }

  lemma LinkArrives(writers: map<nat, Writer>, schedule: seq<nat>, reverse: bool, parse: bytes -> Address) returns (last: Server)
    requires GoodWriters(writers, reverse, parse) && Schedules(schedule, LanesOf(writers))
    ensures Serve(Server(map[], map[], {}, []), OnLink(schedule, LanesOf(writers)), reverse, parse) == Served(last)
    ensures last.notices == [] && Arrives(last.outputs, GivenTo(writers))
  {
    WritersStand(writers, reverse, parse);
    WritersCarry(writers, reverse, parse);
    hide GoodWriters, Schedules, OnLink, Stand, Serve, Carries, Arrives, LanesOf, PeersOf, GivenTo;
    last := LanesArrive(schedule, LanesOf(writers), PeersOf(writers), GivenTo(writers), reverse, parse);
  }

  lemma WritersCarry(writers: map<nat, Writer>, reverse: bool, parse: bytes -> Address)
    requires GoodWriters(writers, reverse, parse)
    ensures Carries(LanesOf(writers), PeersOf(writers), GivenTo(writers))
  {
    hide Sent, Wrote, OwnOps, GoodPeer, ReadableUdp;
    forall id | id in writers ensures Sent(LanesOf(writers)[id].ops, id) == GivenTo(writers)[id] {
      var w := writers[id];
      assert w.Logged() && !w.failed;
    }
  }

  /**
   * The link end to end. Any number of writers have written what they were given, in any number of calls; their frames
   * arrive in any interleaving and any pieces. The server reads the link to its end, every session's output has received
   * exactly what its writer was given, and no session was told to end.
   */
  method ServeWriters(worker: ServerWorker, ghost writers: map<nat, Writer>, ghost schedule: seq<nat>) returns (ghost clean: bool)
    requires worker.reader.Valid() && worker.Value() == Server(map[], map[], {}, [])
    requires GoodWriters(writers, worker.reverse, worker.parse) && Schedules(schedule, LanesOf(writers))
    requires worker.reader.Stream() == OnLink(schedule, LanesOf(writers))
    modifies worker, worker.reader
    ensures clean && worker.notices == []
    ensures Arrives(worker.outputs, old(GivenTo(writers)))
  {
    ghost var last := LinkArrives(writers, schedule, worker.reverse, worker.parse);
    hide Arrives, GivenTo, GoodWriters, Schedules, OnLink, Serve;
    clean := worker.Run();
  }

  /** Outputs belong to writers, and whoever sent something has one. */
  lemma OutputsOf(ops: seq<Op>, peers: map<nat, Peer>, reverse: bool, parse: bytes -> Address, last: Server)
    requires Interleaving(ops, peers, Progress({}, {}), reverse, parse)
    requires forall id :: id in last.outputs <==> exists i :: 0 <= i < |ops| && ops[i].id == id && !ops[i].End?
    ensures forall id :: id in last.outputs ==> id in peers
    ensures forall id :: Sent(ops, id) != [] ==> id in last.outputs
  {
    forall id | id in last.outputs ensures id in peers {
      var i :| 0 <= i < |ops| && ops[i].id == id && !ops[i].End?;
      PeerOfOp(ops, peers, Progress({}, {}), reverse, parse, i);
    }
    forall id | Sent(ops, id) != [] ensures id in last.outputs {
      var i := SenderOf(ops, id);
    }
  }

  lemma {:induction false} PeerOfOp(ops: seq<Op>, peers: map<nat, Peer>, p: Progress, reverse: bool, parse: bytes -> Address, i: nat)
    requires Interleaving(ops, peers, p, reverse, parse) && i < |ops|
    ensures ops[i].id in peers
    decreases |ops|
  {
    hide Acceptable;
    if i > 0 {
      PeerOfOp(ops[1..], peers, After(p, ops[0]), reverse, parse, i - 1);
    }
  }

  lemma {:induction false} SenderOf(ops: seq<Op>, id: nat) returns (i: nat)
    requires Sent(ops, id) != []
    ensures i < |ops| && ops[i].id == id && !ops[i].End?
    decreases |ops|
  {
    if ops[0].Data? && ops[0].id == id {
      i := 0;
    } else {
      i := SenderOf(ops[1..], id);
      i := i + 1;
    }
  }
}
