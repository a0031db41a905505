/** Fragmenting a TLS hello: one record becomes several, and a TLS reader sees the same message. */
module TlsFragment {
  import opened Bytes
  import opened Options

  // ---- Records (section 5.1 of RFC 8446) ----

  /** A record: type and version, then the payload's length and the payload. */
  function Record(head: bytes, payload: bytes): bytes {
    head + [Hi(|payload|), Lo(|payload|)] + payload
  }

  function Records(head: bytes, parts: seq<bytes>): seq<bytes> {
    if parts == [] then [] else Records(head, parts[..|parts| - 1]) + [Record(head, parts[|parts| - 1])]
  }

  /** A TLS reader: cuts a byte stream into whole records, or finds it malformed. */
  function ReadRecords(s: bytes): Option<seq<(bytes, bytes)>>
    decreases |s|
  {
    if s == [] then Some([])
    else if |s| < 5 then None
    else
      var n := 5 + U16(s[3], s[4]);
      if |s| < n then None
      else match ReadRecords(s[n..])
        case None => None
        case Some(rest) => Some([(s[..3], s[5..n])] + rest)
  }

  ghost predicate Fit(parts: seq<bytes>) {
    forall i :: 0 <= i < |parts| ==> |parts[i]| < 0x1_0000
  }

  function WithHead(head: bytes, parts: seq<bytes>): seq<(bytes, bytes)> {
    if parts == [] then [] else [(head, parts[0])] + WithHead(head, parts[1..])
  }

  lemma ReadOne(head: bytes, part: bytes, rest: bytes)
    requires |head| == 3 && |part| < 0x1_0000
    ensures ReadRecords(Record(head, part) + rest) ==
            match ReadRecords(rest) case None => None case Some(more) => Some([(head, part)] + more)
  {
    U16RoundTrip(|part|);
    var s := Record(head, part) + rest;
    var n := 5 + |part|;
    assert s[..3] == head && s[3] == Hi(|part|) && s[4] == Lo(|part|) && s[5..n] == part && s[n..] == rest;
  }

  lemma {:induction false} RecordsCons(head: bytes, part: bytes, parts: seq<bytes>)
    ensures Records(head, [part] + parts) == [Record(head, part)] + Records(head, parts)
    decreases |parts|
  {
    var all := [part] + parts;
    if parts == [] {
      assert all[..0] == [] && all == [part];
    } else {
      var n := |parts| - 1;
      assert all[..|all| - 1] == [part] + parts[..n];
      RecordsCons(head, part, parts[..n]);
    }
  }

  /** Whatever the cut, the reader finds the records one by one, all of the original type and version. */
  lemma {:induction false} ReaderSees(head: bytes, parts: seq<bytes>)
    requires |head| == 3 && Fit(parts)
    ensures ReadRecords(Concat(Records(head, parts))) == Some(WithHead(head, parts))
    decreases |parts|
  {
    if parts != [] {
      assert parts == [parts[0]] + parts[1..];
      RecordsCons(head, parts[0], parts[1..]);
      var r := Records(head, parts);
      assert r[0] == Record(head, parts[0]) && r[1..] == Records(head, parts[1..]);
      ReadOne(head, parts[0], Concat(Records(head, parts[1..])));
      ReaderSees(head, parts[1..]);
    }
  }

  /** The message a sequence of records carries. */
  function Message(records: seq<(bytes, bytes)>): bytes {
    if records == [] then [] else records[0].1 + Message(records[1..])
  }

  lemma {:induction false} MessageOf(head: bytes, parts: seq<bytes>)
    ensures Message(WithHead(head, parts)) == Concat(parts)
    decreases |parts|
  {
    if parts != [] {
      MessageOf(head, parts[1..]);
    }
  }

  // ---- The writer underneath ----

  /** Takes whole writes; one of them may fail, and then takes nothing. */
  class Sink {
    var writes: seq<bytes>
    const failAt: Option<nat>

    constructor (failAt: Option<nat>)
      ensures writes == [] && this.failAt == failAt
    {
      writes := [];
      this.failAt := failAt;
    }

    method Write(b: bytes) returns (ok: bool)
      modifies this
      ensures ok <==> failAt != Some(|old(writes)|)
      ensures writes == if ok then old(writes) + [b] else old(writes)
    {
      ok := failAt != Some(|writes|);
      if ok {
        writes := writes + [b];
      }
    }
  }

  /** Where the next cut falls: `length` bytes on, or at the end if that is too far or the last split allowed. */
  function Cut(from: nat, length: nat, size: nat, maxSplit: int, splitNum: nat): (to: nat)
    requires from <= size && length >= 1
    ensures from <= to <= size && (from < size ==> from < to)
    ensures maxSplit > 0 && splitNum >= maxSplit ==> to == size
  {
    if from + length > size || (maxSplit > 0 && splitNum >= maxSplit) then size else from + length
  }

  /** A list of parts of `data[..from]` made by the loop: none empty, and no more than allowed. */
  ghost predicate CutInto(parts: seq<bytes>, data: bytes, from: nat, maxSplit: int) {
    && from <= |data| && Concat(parts) == data[..from]
    && (forall i :: 0 <= i < |parts| ==> |parts[i]| <= |data| && (data != [] ==> parts[i] != []))
    && (maxSplit > 0 ==> |parts| <= maxSplit)
  }

  lemma CutNext(parts: seq<bytes>, data: bytes, from: nat, to: nat, maxSplit: int)
    requires CutInto(parts, data, from, maxSplit) && from <= to <= |data| && (data != [] ==> from < to)
    requires maxSplit > 0 ==> |parts| < maxSplit
    ensures CutInto(parts + [data[from..to]], data, to, maxSplit)
  {
    ConcatSnoc(parts, data[from..to]);
    assert data[..to] == data[..from] + data[from..to];
  }

  /** Fills the reused buffer with one record. */
  method FillRecord(buff: array<byte>, head: bytes, part: bytes)
    requires |head| == 3 && 5 + |part| <= buff.Length
    modifies buff
    ensures buff[..5 + |part|] == Record(head, part)
  {
    forall k | 0 <= k < 3 {
      buff[k] := head[k];
    }
    forall k | 0 <= k < |part| {
      buff[5 + k] := part[k];
    }
    buff[3] := Hi(|part|);
    buff[4] := Lo(|part|);
    var r := Record(head, part);
    assert forall k :: 0 <= k < |part| ==> buff[5 + k] == part[k] && r[5 + k] == part[k];
    assert buff[..5 + |part|] == r;
  }

  lemma RecordsSnoc(head: bytes, parts: seq<bytes>, part: bytes)
    ensures Records(head, parts + [part]) == Records(head, parts) + [Record(head, part)]
    ensures Concat(Records(head, parts + [part])) == Concat(Records(head, parts)) + Record(head, part)
  {
    assert (parts + [part])[..|parts|] == parts;
    ConcatSnoc(Records(head, parts), Record(head, part));
  }

  /** Whether a first write is fragmented as a hello: a handshake record that is there as a whole. */
  predicate IsHello(b: bytes) {
    |b| > 5 && b[0] == 22 && |b| >= 5 + U16(b[3], b[4])
  }

  class FragmentWriter {
    const sink: Sink
    const packetsFrom: nat
    const packetsTo: nat
    /** With no interval the records of the hello leave in one write. */
    const intervalMax: nat
    var count: nat

    constructor (sink: Sink, packetsFrom: nat, packetsTo: nat, intervalMax: nat)
      ensures this.sink == sink && this.packetsFrom == packetsFrom && this.packetsTo == packetsTo && this.intervalMax == intervalMax && count == 0
    {
      this.sink, this.packetsFrom, this.packetsTo, this.intervalMax := sink, packetsFrom, packetsTo, intervalMax;
      count := 0;
    }

    /** What the loop has sent on: nothing yet if the records are collected, else each record in its own write. */
    ghost predicate Sending(before: seq<bytes>, hello: bytes, head: bytes, parts: seq<bytes>)
      reads this, sink
    {
      if intervalMax == 0 then sink.writes == before && hello == Concat(Records(head, parts))
      else sink.writes == before + Records(head, parts) && hello == []
    }

    /** One record on its way. */
    method SendPart(record: bytes, hello: bytes, head: bytes, part: bytes, ghost before: seq<bytes>, ghost parts: seq<bytes>)
      returns (ok: bool, hello': bytes)
      requires Sending(before, hello, head, parts) && record == Record(head, part)
      modifies sink
      ensures ok ==> Sending(before, hello', head, parts + [part])
      ensures !ok ==> sink.writes == old(sink.writes) && intervalMax > 0
    {
      RecordsSnoc(head, parts, part);
      hide Records, Record, Concat;
      if intervalMax == 0 {
        return true, hello + record;
      }
      hello' := hello;
      ok := sink.Write(record);
      Assoc(before, Records(head, parts), [record]);
    }

    /**
     * The hello's payload as records. Whatever the lengths drawn, the parts make up the payload, none is empty, and there
     * are at most maxSplit of them; on a failure what went out is the records of a front of the payload.
     */
    method SendHello(head: bytes, data: bytes, lengths: nat -> nat, maxSplit: int) returns (ok: bool, ghost parts: seq<bytes>)
      requires |head| == 3 && |data| < 0x1_0000 && forall k :: lengths(k) >= 1
      modifies sink
      ensures ok ==> CutInto(parts, data, |data|, maxSplit)
      ensures ok ==> sink.writes == old(sink.writes) + if intervalMax == 0 then [Concat(Records(head, parts))] else Records(head, parts)
      ensures !ok && intervalMax == 0 ==> sink.writes == old(sink.writes)
      ensures !ok && intervalMax > 0 ==>
                CutInto(parts, data, |Concat(parts)|, maxSplit) && sink.writes == old(sink.writes) + Records(head, parts)
    {
      ghost var before := sink.writes;
      var buff := new byte[2048];
      var hello: bytes := [];
      var from, splitNum := 0, 0;
      parts := [];
      NilRight(before);
      while true
        invariant Sending(before, hello, head, parts) && CutInto(parts, data, from, maxSplit) && splitNum == |parts|
        invariant fresh(buff) && (maxSplit > 0 ==> splitNum < maxSplit)
        invariant data != [] ==> from < |data|
        invariant data == [] ==> from == 0
        decreases |data| - from
      {
        hide Records, Record, Concat, CutInto;
        splitNum := splitNum + 1;
        CutBound(parts, data, from, maxSplit);
        var to := Cut(from, lengths(splitNum), |data|, maxSplit, splitNum);
        var part := data[from..to];
        if 5 + |part| > buff.Length {
          buff := new byte[5 + |part|];
        }
        FillRecord(buff, head, part);
        CutNext(parts, data, from, to, maxSplit);
        ok, hello := SendPart(buff[..5 + |part|], hello, head, part, before, parts);
        if !ok {
          CutSize(parts, data, from, maxSplit);
          return;
        }
        parts := parts + [part];
        from := to;
        if from == |data| {
          SomethingSent(head, parts);
          break;
        }
      }
      if |hello| > 0 {
        ok := sink.Write(hello);
      }
    }

    /** Plain splitting, without new headers: the bytes go out in order. */
    method SendPlain(b: bytes, lengths: nat -> nat, maxSplit: int) returns (n: nat, ok: bool, ghost parts: seq<bytes>)
      requires forall k :: lengths(k) >= 1
      modifies sink
      ensures sink.writes == old(sink.writes) + parts && n <= |b| && CutInto(parts, b, n, maxSplit)
      ensures ok ==> n == |b|
    {
      parts := [];
      NilRight(sink.writes);
      var from, splitNum := 0, 0;
      while true
        invariant sink.writes == old(sink.writes) + parts && CutInto(parts, b, from, maxSplit) && splitNum == |parts|
        invariant maxSplit > 0 ==> splitNum < maxSplit
        invariant b != [] ==> from < |b|
        decreases |b| - from
      {
        hide CutInto;
        splitNum := splitNum + 1;
        CutBound(parts, b, from, maxSplit);
        var to := Cut(from, lengths(splitNum), |b|, maxSplit, splitNum);
        CutNext(parts, b, from, to, maxSplit);
        ok := sink.Write(b[from..to]);
        if !ok {
          return from, false, parts;
        }
        Assoc(old(sink.writes), parts, [b[from..to]]);
        parts := parts + [b[from..to]];
        from := to;
        if from >= |b| {
          return from, true, parts;
        }
      }
    }

    /**
     * A hello that failed on the way: nothing of a collected hello, else the whole records of a front of the payload; or
     * all its records, and not what follows them.
     */
    ghost predicate Partial(before: seq<bytes>, writes: seq<bytes>, b: bytes, parts: seq<bytes>, n: nat, maxSplit: int)
      requires IsHello(b)
    {
      var end := 5 + U16(b[3], b[4]);
      var data, records := b[5..end], Records(b[..3], parts);
      if n == 0 then
        if intervalMax == 0 then writes == before
        else CutInto(parts, data, |Concat(parts)|, maxSplit) && writes == before + records
      else
        && n == end && CutInto(parts, data, |data|, maxSplit)
        && writes == before + if intervalMax == 0 then [Concat(records)] else records
    }

    /**
     * Write. A first write that holds a whole handshake record leaves as records of the same type and version whose
     * payloads make up the original payload, followed by the untouched rest; every other write leaves byte for byte. A
     * failure leaves a front of that, and says how much of it.
     */
    method Write(b: bytes, lengths: nat -> nat, maxSplit: int) returns (n: nat, ok: bool, ghost parts: seq<bytes>)
      requires forall k :: lengths(k) >= 1
      modifies this`count, sink
      ensures count == old(count) + 1
      ensures ok ==> n == |b| && |old(sink.writes)| <= |sink.writes| && sink.writes[..|old(sink.writes)|] == old(sink.writes)
      ensures ok && packetsFrom == 0 && packetsTo == 1 && count == 1 && IsHello(b) ==>
                var end := 5 + U16(b[3], b[4]);
                && CutInto(parts, b[5..end], end - 5, maxSplit)
                && Concat(sink.writes[|old(sink.writes)|..]) == Concat(Records(b[..3], parts)) + b[end..]
                && ReadRecords(Concat(Records(b[..3], parts))) == Some(WithHead(b[..3], parts))
                && Message(WithHead(b[..3], parts)) == b[5..end]
      ensures ok && !(packetsFrom == 0 && packetsTo == 1 && count == 1 && IsHello(b)) ==>
                Concat(sink.writes[|old(sink.writes)|..]) == b
      ensures !ok && packetsFrom == 0 && packetsTo == 1 && count == 1 && IsHello(b) ==>
                Partial(old(sink.writes), sink.writes, b, parts, n, maxSplit)
      ensures !ok && !(packetsFrom == 0 && packetsTo == 1 && count == 1 && IsHello(b)) ==>
                n <= |b| && sink.writes == old(sink.writes) + parts && Concat(parts) == b[..n]
    {
      count := count + 1;
      parts := [];
      if packetsFrom == 0 && packetsTo == 1 {
        if count != 1 || !IsHello(b) {
          ok := sink.Write(b);
          OneWrite(old(sink.writes), b);
          return if ok then |b| else 0, ok, parts;
        }
        var end := 5 + U16(b[3], b[4]);
        var head, data, tail := b[..3], b[5..end], b[end..];
        ok, parts := SendHello(head, data, lengths, maxSplit);
        if !ok {
          return 0, false, parts;
        }
        HelloMeaning(head, data, parts, maxSplit);
        ghost var records := Records(head, parts);
        ghost var sent := if intervalMax == 0 then [Concat(records)] else records;
        SentRecords(records, sent);
        if |b| > end {
          ok := sink.Write(tail);
          if !ok {
            return end, false, parts;
          }
        }
        TailSent(old(sink.writes), sent, tail, |b| > end, sink.writes);
        return |b|, true, parts;
      }
      if packetsFrom != 0 && (count < packetsFrom || count > packetsTo) {
        ok := sink.Write(b);
        OneWrite(old(sink.writes), b);
        return if ok then |b| else 0, ok, parts;
      }
      n, ok, parts := SendPlain(b, lengths, maxSplit);
      PlainSent(old(sink.writes), b, parts, n, maxSplit);
    }
  }

  lemma OneWrite(before: seq<bytes>, b: bytes)
    ensures (before + [b])[..|before|] == before && Concat((before + [b])[|before|..]) == b
  {
    assert (before + [b])[|before|..] == [b];
    ConcatSnoc([], b);
    assert [] + [b] == [b] && [] + b == b;
  }

  lemma PlainSent(before: seq<bytes>, b: bytes, parts: seq<bytes>, n: nat, maxSplit: int)
    requires CutInto(parts, b, n, maxSplit)
    ensures (before + parts)[..|before|] == before && (n == |b| ==> Concat((before + parts)[|before|..]) == b)
  {
    assert (before + parts)[|before|..] == parts;
    assert b[..|b|] == b;
  }

  lemma SentRecords(records: seq<bytes>, sent: seq<bytes>)
    requires sent == records || sent == [Concat(records)]
    ensures Concat(sent) == Concat(records)
  {
    if sent != records {
      NilRight(Concat(records));
    }
  }

  lemma TailSent(before: seq<bytes>, sent: seq<bytes>, tail: bytes, some: bool, writes: seq<bytes>)
    requires writes == if some then before + sent + [tail] else before + sent
    requires !some ==> tail == []
    ensures |before| <= |writes| && writes[..|before|] == before && Concat(writes[|before|..]) == Concat(sent) + tail
  {
    if some {
      assert writes[|before|..] == sent + [tail];
      ConcatSnoc(sent, tail);
    } else {
      assert writes[|before|..] == sent;
      NilRight(Concat(sent));
    }
  }

  lemma HelloMeaning(head: bytes, data: bytes, parts: seq<bytes>, maxSplit: int)
    requires |head| == 3 && |data| < 0x1_0000 && CutInto(parts, data, |data|, maxSplit)
    ensures ReadRecords(Concat(Records(head, parts))) == Some(WithHead(head, parts)) && Message(WithHead(head, parts)) == data
  {
    ReaderSees(head, parts);
    MessageOf(head, parts);
    assert data[..|data|] == data;
  }

  lemma CutBound(parts: seq<bytes>, data: bytes, from: nat, maxSplit: int)
    requires CutInto(parts, data, from, maxSplit)
    ensures from <= |data|
  {
  }

  lemma SomethingSent(head: bytes, parts: seq<bytes>)
    requires parts != [] && |head| == 3
    ensures |Concat(Records(head, parts))| >= 5
  {
    var n := |parts| - 1;
    assert parts == parts[..n] + [parts[n]];
    RecordsSnoc(head, parts[..n], parts[n]);
  }

  lemma CutSize(parts: seq<bytes>, data: bytes, from: nat, maxSplit: int)
    requires CutInto(parts, data, from, maxSplit)
    ensures CutInto(parts, data, |Concat(parts)|, maxSplit)
  {
    assert |Concat(parts)| == from;
  }
}
