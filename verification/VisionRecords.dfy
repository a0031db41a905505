/** IsCompleteRecord: a byte cursor over a list of buffers, and the record grammar it decides. */
module VisionRecords {
  import opened Bytes

  const APPLICATION_DATA: bytes := [0x17, 0x03, 0x03]

  /** Flatten-then-scan: the bytes are whole, non-empty application-data records (section 5.2 of RFC 8446). */
  predicate WholeRecords(b: bytes)
    decreases |b|
  {
    b == [] ||
    (&& |b| >= 5
     && b[..3] == APPLICATION_DATA
     && 0 < U16(b[3], b[4]) <= |b| - 5
     && WholeRecords(b[5 + U16(b[3], b[4])..]))
  }

  /** The records with the given payloads, one after the other. */
  function EncodeRecords(payloads: seq<bytes>): bytes {
    if payloads == [] then []
    else APPLICATION_DATA + [Hi(|payloads[0]|), Lo(|payloads[0]|)] + payloads[0] + EncodeRecords(payloads[1..])
  }

  predicate RecordSized(payloads: seq<bytes>) {
    forall i :: 0 <= i < |payloads| ==> 0 < |payloads[i]| < 0x1_0000
  }

  function Payloads(b: bytes): seq<bytes>
    requires WholeRecords(b)
    decreases |b|
  {
    if b == [] then [] else var n := 5 + U16(b[3], b[4]); [b[5..n]] + Payloads(b[n..])
  }

  /** The scan accepts exactly the encodings of lists of non-empty payloads. */
  lemma WholeRecordsExactly(b: bytes)
    ensures WholeRecords(b) <==> exists payloads :: RecordSized(payloads) && EncodeRecords(payloads) == b
  {
    if WholeRecords(b) {
      PayloadsEncode(b);
    }
    forall payloads | RecordSized(payloads) && EncodeRecords(payloads) == b ensures WholeRecords(b) {
      EncodedIsWhole(payloads);
    }
  }

  lemma {:induction false} PayloadsEncode(b: bytes)
    requires WholeRecords(b)
    ensures RecordSized(Payloads(b)) && EncodeRecords(Payloads(b)) == b
    decreases |b|
  {
    if b != [] {
      var n := 5 + U16(b[3], b[4]);
      var p, rest := b[5..n], Payloads(b[n..]);
      PayloadsEncode(b[n..]);
      U16Bytes(b[3], b[4]);
      RecordShape(b, n);
      assert Payloads(b) == [p] + rest;
      EncodeCons(p, rest);
    }
  }

  lemma RecordShape(b: bytes, n: nat)
    requires 5 <= n <= |b|
    ensures b == b[..3] + [b[3], b[4]] + b[5..n] + b[n..]
  {
  }

  lemma EncodeCons(p: bytes, rest: seq<bytes>)
    ensures EncodeRecords([p] + rest) == APPLICATION_DATA + [Hi(|p|), Lo(|p|)] + p + EncodeRecords(rest)
    ensures RecordSized(rest) && 0 < |p| < 0x1_0000 ==> RecordSized([p] + rest)
  {
    assert ([p] + rest)[1..] == rest;
  }

  lemma {:induction false} EncodedIsWhole(payloads: seq<bytes>)
    requires RecordSized(payloads)
    ensures WholeRecords(EncodeRecords(payloads))
    decreases |payloads|
  {
    if payloads != [] {
      var p, rest := payloads[0], EncodeRecords(payloads[1..]);
      var b := EncodeRecords(payloads);
      EncodedIsWhole(payloads[1..]);
      U16RoundTrip(|p|);
      assert b[..3] == APPLICATION_DATA && b[3] == Hi(|p|) && b[4] == Lo(|p|);
      assert b[5 + |p|..] == rest;
    }
  }

  /** recordCursor: reads the byte views of a buffer list in order, without copying. */
  class RecordCursor {
    const multiBuffer: seq<bytes>
    var index: nat
    var view: bytes
    var offset: nat

    ghost predicate Valid()
      reads this
    {
      index <= |multiBuffer| && offset <= |view|
    }

    /** The bytes the cursor has not read yet. */
    ghost function Unread(): bytes
      requires Valid()
      reads this
    {
      view[offset..] + Concat(multiBuffer[index..])
    }

    constructor (multiBuffer: seq<bytes>)
      ensures Valid() && Unread() == Concat(multiBuffer) && this.multiBuffer == multiBuffer
    {
      this.multiBuffer := multiBuffer;
      index, view, offset := 0, [], 0;
      new;
      assert multiBuffer[0..] == multiBuffer;
    }

    /** Moves over exhausted views, empty ones included; tells whether a byte is left. */
    method More() returns (more: bool)
      requires Valid()
      modifies this
      ensures Valid() && Unread() == old(Unread())
      ensures more <==> Unread() != []
      ensures more ==> offset < |view|
    {
      while offset >= |view|
        invariant Valid() && Unread() == old(Unread())
        decreases |multiBuffer| - index
      {
        if index == |multiBuffer| {
          return false;
        }
        assert multiBuffer[index..][1..] == multiBuffer[index + 1..];
        view := multiBuffer[index];
        index := index + 1;
        offset := 0;
      }
      return true;
    }

    method Next() returns (data: byte, ok: bool)
      requires Valid()
      modifies this
      ensures Valid()
      ensures ok <==> old(Unread()) != []
      ensures ok ==> data == old(Unread())[0] && Unread() == old(Unread())[1..]
    {
      var more := More();
      if !more {
        return 0, false;
      }
      data, ok := view[offset], true;
      offset := offset + 1;
    }

    /** Five bytes across buffer boundaries. */
    method ReadHeader(header: array<byte>) returns (ok: bool)
      requires Valid() && header.Length == 5
      modifies this, header
      ensures Valid()
      ensures ok <==> |old(Unread())| >= 5
      ensures ok ==> header[..] == old(Unread())[..5] && Unread() == old(Unread())[5..]
    {
      ghost var all := Unread();
      var i := 0;
      while i < 5
        invariant Valid() && 0 <= i <= 5 && i <= |all|
        invariant header[..i] == all[..i] && Unread() == all[i..]
      {
        var data, more := Next();
        if !more {
          return false;
        }
        header[i] := data;
        i := i + 1;
      }
      return true;
    }

    /** Drops n bytes across buffer boundaries. */
    method Skip(n: nat) returns (ok: bool)
      requires Valid()
      modifies this
      ensures Valid()
      ensures ok <==> |old(Unread())| >= n
      ensures ok ==> Unread() == old(Unread())[n..]
    {
      ghost var all := Unread();
      var left := n;
      while left > 0
        invariant Valid() && 0 <= left <= n && n - left <= |all|
        invariant Unread() == all[n - left..]
      {
        var more := More();
        if !more {
          return false;
        }
        var available := |view| - offset;
        if available > left {
          offset := offset + left;
          return true;
        }
        offset := offset + available;
        left := left - available;
      }
      return true;
    }
  }

  /** One record of the scan, header first. */
  lemma ScanStep(b: bytes, h: bytes)
    requires |b| >= 5 && h == b[..5]
    ensures WholeRecords(b) <==>
            && h[0] == 0x17 && h[1] == 0x03 && h[2] == 0x03
            && 0 < U16(h[3], h[4]) <= |b[5..]| && WholeRecords(b[5..][U16(h[3], h[4])..])
  {
    var n := U16(h[3], h[4]);
    assert b[..3] == h[..3] && b[3] == h[3] && b[4] == h[4];
    assert h[..3] == [h[0], h[1], h[2]];
    if n <= |b[5..]| {
      assert b[5..][n..] == b[5 + n..];
    }
  }

  lemma ScanEnds(b: bytes)
    ensures b == [] ==> WholeRecords(b)
    ensures 0 < |b| < 5 ==> !WholeRecords(b)
  {
  }

  /** The cursor decides the flattened bytes, for every split into buffers. */
  method IsCompleteRecord(buffer: seq<bytes>) returns (complete: bool)
    ensures complete <==> WholeRecords(Concat(buffer))
  {
    hide WholeRecords, Concat;
    var cursor := new RecordCursor(buffer);
    var header := new byte[5];
    while true
      invariant cursor.Valid() && fresh(cursor) && fresh(header)
      invariant WholeRecords(Concat(buffer)) == WholeRecords(cursor.Unread())
      decreases |cursor.Unread()|
    {
      ScanEnds(cursor.Unread());
      var more := cursor.More();
      if !more {
        return true;
      }
      ghost var b := cursor.Unread();
      var ok := cursor.ReadHeader(header);
      if !ok {
        return false;
      }
      ScanStep(b, header[..]);
      if header[0] != 0x17 || header[1] != 0x03 || header[2] != 0x03 {
        return false;
      }
      var recordLen := U16(header[3], header[4]);
      if recordLen == 0 {
        return false;
      }
      ok := cursor.Skip(recordLen);
      if !ok {
        return false;
      }
    }
  }
}
