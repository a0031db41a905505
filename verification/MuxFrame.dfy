/** Mux frame metadata: addresses with the port first, and the frame header built around them. */
module MuxFrame {
  import opened Bytes
  import opened Options
  import opened NetAddress

  /** A successful parse leaves the rest of the input. */
  datatype Parsed<T> = Fail | Got(value: T, rest: bytes)

  // ---- Addresses ----

  predicate MaybeIPPrefix(b: byte) {
    b == 91 || 48 <= b <= 57
  }

  predicate DomainByte(c: byte) {
    48 <= c <= 57 || 97 <= c <= 122 || 65 <= c <= 90 || c == 45 || c == 46 || c == 95
  }

  predicate IsValidDomain(d: bytes) {
    forall i :: 0 <= i < |d| ==> DomainByte(d[i])
  }

  /** The wire form of an address; none for a missing address or a domain longer than 256 bytes. */
  function WriteAddress(a: Address): Option<bytes> {
    match a
    case NoAddress => None
    case IPv4(ip) => Some([1] + ip)
    case IPv6(ip) => Some([3] + ip)
    case Domain(d) => if |d| > 256 then None else Some([2, Lo(|d|)] + d)
  }

  /** The text of a domain: an IP address, a valid domain, or an error. */
  function ReadDomain(d: bytes, parse: bytes -> Address): Option<Address> {
    if d != [] && MaybeIPPrefix(d[0]) && IsIP(parse(d)) then Some(parse(d))
    else if IsValidDomain(d) then Some(Domain(d))
    else None
  }

  /**
   * The last n bytes of the buffer the parser reads into. Asked for the last zero bytes, the buffer gives all it holds:
   * what was there in front, the address type and the length.
   */
  function LastBytes(front: bytes, d: bytes): bytes {
    if d == [] then front + [2, 0] else d
  }

  /** Reads an address into a buffer that already holds `front`. */
  function ReadAddress(s: bytes, front: bytes, parse: bytes -> Address): Parsed<Address> {
    if |s| < 1 then Fail
    else if s[0] == 1 then if |s| < 5 then Fail else Got(IPAddress(s[1..5]), s[5..])
    else if s[0] == 3 then if |s| < 17 then Fail else Got(IPAddress(s[1..17]), s[17..])
    else if s[0] == 2 then
      if |s| < 2 then Fail
      else
        var n: int := s[1];
        if |s| < 2 + n then Fail
        else match ReadDomain(LastBytes(front, s[2..2 + n]), parse) case None => Fail case Some(a) => Got(a, s[2 + n..])
    else Fail
  }

  /** The addresses that survive the wire: not an IPv4 in disguise, not a domain that is empty, too long, odd or an IP in text form. */
  predicate Readable(a: Address, parse: bytes -> Address) {
    match a
    case NoAddress => false
    case IPv4(ip) => true
    case IPv6(ip) => |ip| == 16 && !Mapped(ip)
    case Domain(d) => 1 <= |d| <= 255 && IsValidDomain(d) && (MaybeIPPrefix(d[0]) ==> !IsIP(parse(d)))
  }

  /** A length of zero never gives a domain, whatever is in front: the type and the length are no domain bytes. */
  lemma ZeroLengthText(front: bytes, parse: bytes -> Address)
    ensures var r := ReadDomain(LastBytes(front, []), parse);
            r == None || (r.Some? && IsIP(r.value) && r.value == parse(front + [2, 0]))
  {
    var text := front + [2, 0];
    assert text[|front|] == 2 && !DomainByte(text[|front|]);
  }

  lemma DomainRoundTrip(d: bytes, front: bytes, rest: bytes, parse: bytes -> Address)
    requires |d| <= 256
    ensures var s := [2, Lo(|d|)] + d + rest;
            ReadAddress(s, front, parse) == Got(Domain(d), rest) <==> Readable(Domain(d), parse)
  {
    var n := |d|;
    var s := [2, Lo(n)] + d + rest;
    assert s[0] == 2 && s[1] == Lo(n);
    ZeroLengthText(front, parse);
    if n <= 255 {
      assert s[2..2 + n] == d && s[2 + n..] == rest;
    } else {
      assert s[2..2] == [];
    }
  }

  /** Reading undoes writing exactly for the readable addresses, and takes nothing more from the input. */
  lemma AddressRoundTrip(a: Address, front: bytes, rest: bytes, parse: bytes -> Address)
    requires Sized(a) && WriteAddress(a).Some?
    ensures ReadAddress(WriteAddress(a).value + rest, front, parse) == Got(a, rest) <==> Readable(a, parse)
  {
    match a
    case IPv4(ip) =>
      var s := [1] + ip + rest;
      assert s[1..5] == ip && s[5..] == rest;
    case IPv6(ip) =>
      var s := [3] + ip + rest;
      assert s[1..17] == ip && s[17..] == rest;
    case Domain(d) => DomainRoundTrip(d, front, rest, parse);
  }

  /** No IP address in text form ends with a zero byte. */
  ghost predicate ParsesText(parse: bytes -> Address) {
    forall d: bytes :: d != [] && d[|d| - 1] == 0 ==> !IsIP(parse(d))
  }

  lemma ZeroLengthRefused(front: bytes, s: bytes, parse: bytes -> Address)
    requires ParsesText(parse) && |s| >= 2 && s[0] == 2 && s[1] == 0
    ensures ReadAddress(s, front, parse) == Fail
  {
    ZeroLengthText(front, parse);
    assert s[2..2] == [];
    assert (front + [2, 0])[|front + [2, 0]| - 1] == 0;
  }

  /** A domain of exactly 256 bytes is written, with length 0, and then refused by the reader. */
  lemma LongestDomainIsRefused(d: bytes, front: bytes, rest: bytes, parse: bytes -> Address)
    requires |d| == 256 && ParsesText(parse)
    ensures WriteAddress(Domain(d)).Some?
    ensures ReadAddress(WriteAddress(Domain(d)).value + rest, front, parse) == Fail
  {
    ZeroLengthRefused(front, [2, Lo(256)] + d + rest, parse);
  }

  /** An empty domain is written and then refused by the reader, too. */
  lemma EmptyDomainIsRefused(front: bytes, rest: bytes, parse: bytes -> Address)
    requires ParsesText(parse)
    ensures WriteAddress(Domain([])).Some?
    ensures ReadAddress(WriteAddress(Domain([])).value + rest, front, parse) == Fail
  {
    ZeroLengthRefused(front, [2, Lo(0)] + [] + rest, parse);
  }

  // ---- Ports and destinations ----

  datatype Network = UnknownNetwork | Tcp | Udp | Unix

  datatype Destination = Destination(network: Network, address: Address, port: nat)

  const NOWHERE := Destination(UnknownNetwork, NoAddress, 0)

  predicate ReadableDest(d: Destination, parse: bytes -> Address) {
    d.network in {Tcp, Udp} && d.port < 0x1_0000 && Sized(d.address) && Readable(d.address, parse)
  }

  function WritePort(port: nat): bytes {
    [Hi(port), Lo(port)]
  }

  function WriteAddressPort(a: Address, port: nat): Option<bytes> {
    match WriteAddress(a) case None => None case Some(w) => Some(WritePort(port) + w)
  }

  function ReadAddressPort(s: bytes, parse: bytes -> Address): Parsed<(Address, nat)> {
    if |s| < 2 then Fail
    else match ReadAddress(s[2..], s[..2], parse) case Fail => Fail case Got(a, rest) => Got((a, U16(s[0], s[1])), rest)
  }

  lemma AddressPortRoundTrip(d: Destination, rest: bytes, parse: bytes -> Address)
    requires ReadableDest(d, parse)
    ensures WriteAddressPort(d.address, d.port).Some?
    ensures ReadAddressPort(WriteAddressPort(d.address, d.port).value + rest, parse) == Got((d.address, d.port), rest)
    ensures |WriteAddressPort(d.address, d.port).value| >= 4
  {
    var w := WriteAddress(d.address).value;
    AddressRoundTrip(d.address, WritePort(d.port), rest, parse);
    U16RoundTrip(d.port);
    assert |w| >= 2;
    hide WriteAddress, ReadAddress, Readable;
    PortFirst(d.port, w, rest);
  }

  lemma PortFirst(port: nat, w: bytes, rest: bytes)
    ensures var s := WritePort(port) + w + rest;
            |s| >= 2 && s[..2] == WritePort(port) && s[0] == Hi(port) && s[1] == Lo(port) && s[2..] == w + rest
  {
    Assoc(WritePort(port), w, rest);
    var s := WritePort(port) + (w + rest);
    assert s[..2] == WritePort(port) && s[2..] == w + rest;
  }

  function NetworkByte(n: Network): byte
    requires n in {Tcp, Udp}
  {
    if n == Tcp then 1 else 2
  }

  /** A network byte and the destination behind it. */
  function WriteDest(d: Destination): Option<bytes>
    requires d.network in {Tcp, Udp}
  {
    match WriteAddressPort(d.address, d.port) case None => None case Some(w) => Some([NetworkByte(d.network)] + w)
  }

  function ReadDest(s: bytes, parse: bytes -> Address): Parsed<Destination> {
    if s == [] then Fail
    else match ReadAddressPort(s[1..], parse)
      case Fail => Fail
      case Got((a, port), rest) =>
        if s[0] == 1 then Got(Destination(Tcp, a, port), rest)
        else if s[0] == 2 then Got(Destination(Udp, a, port), rest)
        else Fail
  }

  lemma DestRoundTrip(d: Destination, rest: bytes, parse: bytes -> Address) returns (w: bytes)
    requires ReadableDest(d, parse)
    ensures WriteDest(d) == Some(w) && |w| >= 5 && w[0] == NetworkByte(d.network)
    ensures ReadDest(w + rest, parse) == Got(d, rest)
  {
    AddressPortRoundTrip(d, rest, parse);
    hide WriteAddressPort, ReadAddressPort, Readable;
    var v := WriteAddressPort(d.address, d.port).value;
    w := [NetworkByte(d.network)] + v;
    ConsRest(NetworkByte(d.network), v, rest);
  }

  lemma ConsRest(x: byte, v: bytes, rest: bytes)
    ensures var s := [x] + v + rest; s != [] && s[0] == x && s[1..] == v + rest
  {
    Assoc([x], v, rest);
    assert ([x] + (v + rest))[1..] == v + rest;
  }

  // ---- Metadata ----

  const NEW: byte := 1
  const KEEP: byte := 2
  const END: byte := 3
  const KEEP_ALIVE: byte := 4
  const OPTION_DATA: byte := 1
  const OPTION_ERROR: byte := 2

  datatype Inbound = Inbound(source: Destination, local: Destination)

  datatype Meta = Meta(id: nat, status: byte, option: byte, target: Destination, globalID: bytes, inbound: Option<Inbound>)

  predicate HasData(m: Meta) {
    m.option % 2 == 1
  }

  predicate IsIPNetwork(n: Network) {
    n in {Tcp, Udp}
  }

  /** The inbound addresses of a reverse connection: the source, and the local address only behind a source. */
  function EncodeInbound(i: Inbound): Option<bytes> {
    if !IsIPNetwork(i.source.network) then Some([])
    else match WriteDest(i.source)
      case None => None
      case Some(source) =>
        if !IsIPNetwork(i.local.network) then Some(source)
        else match WriteDest(i.local) case None => None case Some(local) => Some(source + local)
  }

  /** What follows the target in a New frame. */
  function EncodeTail(m: Meta, udp: Option<Destination>): Option<bytes> {
    match m.inbound
    case Some(i) => EncodeInbound(i)
    case None => if udp.Some? then Some(m.globalID) else Some([])
  }

  function EncodeTarget(d: Destination): Option<bytes> {
    if IsIPNetwork(d.network) then WriteDest(d) else WriteAddressPort(d.address, d.port)
  }

  /** The address of a packet in a later frame; of an address that cannot be written only the port gets out. */
  function EncodePacketDest(d: Destination): bytes {
    [2] + WritePort(d.port) + match WriteAddress(d.address) case None => [] case Some(w) => w
  }

  /** Everything behind the length. */
  function EncodeBody(m: Meta, udp: Option<Destination>): Option<bytes> {
    var head := [Hi(m.id), Lo(m.id), m.status, m.option];
    if m.status == NEW then
      match EncodeTarget(m.target)
      case None => None
      case Some(target) =>
        match EncodeTail(m, udp) case None => None case Some(tail) => Some(head + (target + tail))
    else if udp.Some? then Some(head + EncodePacketDest(udp.value))
    else Some(head)
  }

  function Encode(m: Meta, udp: Option<Destination>): Option<bytes> {
    match EncodeBody(m, udp) case None => None case Some(body) => Some(WritePort(|body|) + body)
  }

  /** The inbound addresses of a New frame; a zero byte is padding. */
  function DecodeInbound(s: bytes, parse: bytes -> Address): Option<Inbound> {
    if s == [] || s[0] == 0 then Some(Inbound(NOWHERE, NOWHERE))
    else match ReadDest(s, parse)
      case Fail => None
      case Got(source, s1) =>
        if s1 == [] || s1[0] == 0 then Some(Inbound(source, NOWHERE))
        else match ReadDest(s1, parse) case Fail => None case Got(local, _) => Some(Inbound(source, local))
  }

  function DecodeTail(m: Meta, s: bytes, readSourceAndLocal: bool, parse: bytes -> Address): Option<Meta> {
    if m.status == NEW && readSourceAndLocal then
      match DecodeInbound(s, parse) case None => None case Some(i) => Some(m.(inbound := Some(i)))
    else if m.status == NEW && HasData(m) && m.target.network == Udp && |s| >= 8 then Some(m.(globalID := s[..8]))
    else Some(m)
  }

  function DecodeBody(b: bytes, readSourceAndLocal: bool, parse: bytes -> Address): Option<Meta> {
    if |b| < 4 then None
    else
      var m := Meta(U16(b[0], b[1]), b[2], b[3], NOWHERE, Zeros(8), None);
      if m.status == NEW || (m.status == KEEP && |b| > 4 && b[4] == 2) then
        if |b| < 8 then None
        else match ReadDest(b[4..], parse)
          case Fail => None
          case Got(target, rest) => DecodeTail(m.(target := target), rest, readSourceAndLocal, parse)
      else DecodeTail(m, b[4..], readSourceAndLocal, parse)
  }

  /** A whole frame header off the front of the stream: exactly the length and that many bytes, or an error. */
  function Decode(s: bytes, readSourceAndLocal: bool, parse: bytes -> Address): (r: Parsed<Meta>)
    ensures r.Got? ==> |s| >= 2 && U16(s[0], s[1]) <= 512 && 2 + U16(s[0], s[1]) <= |s| && r.rest == s[2 + U16(s[0], s[1])..]
  {
    if |s| < 2 then Fail
    else
      var n := U16(s[0], s[1]);
      if n > 512 || |s| < 2 + n then Fail
      else match DecodeBody(s[2..2 + n], readSourceAndLocal, parse) case None => Fail case Some(m) => Got(m, s[2 + n..])
  }

  // ---- Round trip ----

  function Selected(i: Inbound): Inbound {
    if !IsIPNetwork(i.source.network) then Inbound(NOWHERE, NOWHERE)
    else if !IsIPNetwork(i.local.network) then Inbound(i.source, NOWHERE)
    else i
  }

  predicate ReadableInbound(i: Inbound, parse: bytes -> Address) {
    IsIPNetwork(i.source.network) ==>
      ReadableDest(i.source, parse) && (IsIPNetwork(i.local.network) ==> ReadableDest(i.local, parse))
  }

  /** What the two ends must agree on for a frame to be understood: inbound addresses are sent only to an end that expects them. */
  predicate Understood(m: Meta, udp: Option<Destination>, readSourceAndLocal: bool, parse: bytes -> Address) {
    && m.id < 0x1_0000 && |m.globalID| == 8 && (udp.Some? ==> Sized(udp.value.address))
    && (m.status == NEW ==>
          && ReadableDest(m.target, parse)
          && (m.inbound.Some? ==> readSourceAndLocal && ReadableInbound(m.inbound.value, parse))
          && (m.inbound.None? && udp.Some? && readSourceAndLocal ==> m.globalID[0] == 0))
    && (m.status == KEEP && udp.Some? ==> udp.value.port < 0x1_0000 && Readable(udp.value.address, parse))
  }

  /** What the receiving end learns from a frame. */
  function Learned(m: Meta, udp: Option<Destination>, readSourceAndLocal: bool): Meta {
    var plain := Meta(m.id, m.status, m.option, NOWHERE, Zeros(8), None);
    if m.status == NEW then
      var m1 := plain.(target := m.target);
      if readSourceAndLocal then
        m1.(inbound := Some(if m.inbound.Some? then Selected(m.inbound.value) else Inbound(NOWHERE, NOWHERE)))
      else if HasData(m) && m.target.network == Udp && udp.Some? && m.inbound.None? then m1.(globalID := m.globalID)
      else m1
    else if m.status == KEEP && udp.Some? then plain.(target := Destination(Udp, udp.value.address, udp.value.port))
    else plain
  }

  lemma InboundRoundTrip(i: Inbound, parse: bytes -> Address)
    requires ReadableInbound(i, parse)
    ensures EncodeInbound(i).Some? && DecodeInbound(EncodeInbound(i).value, parse) == Some(Selected(i))
  {
    hide WriteDest, ReadDest, ReadableDest;
    if IsIPNetwork(i.source.network) {
      if IsIPNetwork(i.local.network) {
        var local := DestRoundTrip(i.local, [], parse);
        NilRight(local);
        var source := DestRoundTrip(i.source, local, parse);
        assert (source + local)[0] == source[0];
      } else {
        var source := DestRoundTrip(i.source, [], parse);
        NilRight(source);
      }
    }
  }

  /** The part of a New frame behind its target. */
  lemma TailRoundTrip(m: Meta, udp: Option<Destination>, readSourceAndLocal: bool, parse: bytes -> Address)
    requires m.status == NEW && Understood(m, udp, readSourceAndLocal, parse)
    ensures EncodeTail(m, udp).Some?
    ensures DecodeTail(Meta(m.id, m.status, m.option, m.target, Zeros(8), None), EncodeTail(m, udp).value, readSourceAndLocal, parse)
         == Some(Learned(m, udp, readSourceAndLocal))
  {
    hide EncodeInbound, DecodeInbound, ReadableDest, ReadableInbound;
    if m.inbound.Some? {
      InboundRoundTrip(m.inbound.value, parse);
    } else if udp.Some? {
      assert m.globalID[..8] == m.globalID;
      assert readSourceAndLocal ==> DecodeInbound(m.globalID, parse) == Some(Inbound(NOWHERE, NOWHERE)) by { PaddingInbound(m.globalID, parse); }
    } else {
      PaddingInbound([], parse);
    }
  }

  lemma PaddingInbound(s: bytes, parse: bytes -> Address)
    ensures s == [] || s[0] == 0 ==> DecodeInbound(s, parse) == Some(Inbound(NOWHERE, NOWHERE))
  {
  }

  lemma HeadParts(id: nat, status: byte, option: byte, rest: bytes) returns (b: bytes)
    requires id < 0x1_0000
    ensures b == [Hi(id), Lo(id), status, option] + rest
    ensures |b| == 4 + |rest| && U16(b[0], b[1]) == id && b[2] == status && b[3] == option && b[4..] == rest
  {
    U16RoundTrip(id);
    b := [Hi(id), Lo(id), status, option] + rest;
  }

  lemma NewRoundTrip(m: Meta, udp: Option<Destination>, readSourceAndLocal: bool, parse: bytes -> Address)
    requires m.status == NEW && Understood(m, udp, readSourceAndLocal, parse)
    ensures EncodeBody(m, udp).Some?
    ensures DecodeBody(EncodeBody(m, udp).value, readSourceAndLocal, parse) == Some(Learned(m, udp, readSourceAndLocal))
  {
    hide DecodeTail, EncodeTail, WriteDest, ReadDest, Learned, ReadableDest;
    TailRoundTrip(m, udp, readSourceAndLocal, parse);
    var tail := EncodeTail(m, udp).value;
    assert IsIPNetwork(m.target.network) by { assert ReadableDest(m.target, parse); ReadableIsIP(m.target, parse); }
    var target := DestRoundTrip(m.target, tail, parse);
    var b := HeadParts(m.id, m.status, m.option, target + tail);
  }

  lemma ReadableIsIP(d: Destination, parse: bytes -> Address)
    requires ReadableDest(d, parse)
    ensures IsIPNetwork(d.network)
  {
  }

  lemma LaterRoundTrip(m: Meta, udp: Option<Destination>, readSourceAndLocal: bool, parse: bytes -> Address)
    requires m.status != NEW && Understood(m, udp, readSourceAndLocal, parse)
    ensures EncodeBody(m, udp).Some?
    ensures DecodeBody(EncodeBody(m, udp).value, readSourceAndLocal, parse) == Some(Learned(m, udp, readSourceAndLocal))
  {
    hide WriteAddress, ReadDest, Readable;
    if udp.Some? {
      var b := HeadParts(m.id, m.status, m.option, EncodePacketDest(udp.value));
      if m.status == KEEP {
        var d := Destination(Udp, udp.value.address, udp.value.port);
        var w := DestRoundTrip(d, [], parse);
        NilRight(w);
        assert w == EncodePacketDest(d);
      }
    } else {
      var b := HeadParts(m.id, m.status, m.option, []);
      NilRight([Hi(m.id), Lo(m.id), m.status, m.option]);
    }
  }

  /**
   * Decoding undoes encoding in front of any stream, for every frame the two ends agree on, exactly when the metadata is
   * within the 512 bytes the receiver accepts (the sender does not check).
   */
  lemma FrameRoundTrip(m: Meta, udp: Option<Destination>, readSourceAndLocal: bool, parse: bytes -> Address, rest: bytes)
    requires Understood(m, udp, readSourceAndLocal, parse)
    ensures EncodeBody(m, udp).Some? && Encode(m, udp).Some?
    ensures Decode(Encode(m, udp).value + rest, readSourceAndLocal, parse) == Got(Learned(m, udp, readSourceAndLocal), rest)
       <==> |EncodeBody(m, udp).value| <= 512
  {
    hide DecodeBody, EncodeBody, Learned, Understood;
    if m.status == NEW {
      NewRoundTrip(m, udp, readSourceAndLocal, parse);
    } else {
      LaterRoundTrip(m, udp, readSourceAndLocal, parse);
    }
    BodyBounded(m, udp, readSourceAndLocal, parse);
    var body := EncodeBody(m, udp).value;
    U16RoundTrip(|body|);
    var s := WritePort(|body|) + body + rest;
    assert s[2..2 + |body|] == body && s[2 + |body|..] == rest;
  }

  lemma DestBounded(d: Destination)
    ensures Sized(d.address) && WriteAddressPort(d.address, d.port).Some? ==> |WriteAddressPort(d.address, d.port).value| <= 260
    ensures Sized(d.address) && IsIPNetwork(d.network) && WriteDest(d).Some? ==> |WriteDest(d).value| <= 261
    ensures Sized(d.address) ==> |EncodePacketDest(d)| <= 261
  {
  }

  /** The length field never wraps. */
  lemma BodyBounded(m: Meta, udp: Option<Destination>, readSourceAndLocal: bool, parse: bytes -> Address)
    requires Understood(m, udp, readSourceAndLocal, parse)
    ensures EncodeBody(m, udp).Some? ==> |EncodeBody(m, udp).value| <= 787
  {
    hide WriteDest, WriteAddressPort, EncodePacketDest, Readable;
    DestBounded(m.target);
    if m.inbound.Some? {
      DestBounded(m.inbound.value.source);
      DestBounded(m.inbound.value.local);
    }
    if udp.Some? {
      DestBounded(udp.value);
    }
  }

  /** A New frame to an empty domain is written, and refused as a whole. */
  lemma EmptyTargetIsRefused(m: Meta, udp: Option<Destination>, readSourceAndLocal: bool, parse: bytes -> Address, rest: bytes)
    requires ParsesText(parse) && m.status == NEW && m.id < 0x1_0000 && IsIPNetwork(m.target.network) && m.target.address == Domain([])
    requires EncodeBody(m, udp).Some? && |EncodeBody(m, udp).value| < 0x1_0000
    ensures Decode(Encode(m, udp).value + rest, readSourceAndLocal, parse) == Fail
  {
    var tail, target := EncodeTail(m, udp).value, EncodeTarget(m.target).value;
    var body := EncodeBody(m, udp).value;
    EmptyDestIsRefused(m.target, tail, parse);
    hide EncodeTail, EncodeTarget, ReadDest, DecodeTail;
    var b := HeadParts(m.id, m.status, m.option, target + tail);
    assert b == body && DecodeBody(body, readSourceAndLocal, parse) == None;
    U16RoundTrip(|body|);
    hide DecodeBody, EncodeBody;
    var s := WritePort(|body|) + body + rest;
    assert s[2..2 + |body|] == body;
  }

  lemma EmptyDestIsRefused(d: Destination, rest: bytes, parse: bytes -> Address)
    requires ParsesText(parse) && IsIPNetwork(d.network) && d.address == Domain([])
    ensures EncodeTarget(d).Some? && ReadDest(EncodeTarget(d).value + rest, parse) == Fail
  {
    var w := WriteAddress(d.address).value;
    var v := WritePort(d.port) + w;
    assert w == [2, 0] && EncodeTarget(d).value == [NetworkByte(d.network)] + v;
    hide ParsesText;
    ConsRest(NetworkByte(d.network), v, rest);
    PortFirst(d.port, w, rest);
    ZeroLengthRefused(WritePort(d.port), w + rest, parse);
  }

  lemma IPBounded(d: Destination)
    requires Sized(d.address) && IsIP(d.address) && IsIPNetwork(d.network)
    ensures WriteDest(d).Some? && |WriteDest(d).value| <= 20
  {
  }

  predicate AtIP(d: Destination) {
    IsIPNetwork(d.network) ==> IsIP(d.address) && Sized(d.address)
  }

  /** The inbound addresses, if any, are IP addresses, as those of a connection are. */
  predicate InboundIPs(m: Meta) {
    m.inbound.Some? ==>
      AtIP(m.inbound.value.source) && AtIP(m.inbound.value.local)
  }

  lemma InboundIPsBounded(i: Inbound)
    requires AtIP(i.source) && AtIP(i.local)
    ensures EncodeInbound(i).Some? && |EncodeInbound(i).value| <= 40
  {
    hide WriteDest;
    if IsIPNetwork(i.source.network) {
      IPBounded(i.source);
      if IsIPNetwork(i.local.network) {
        IPBounded(i.local);
      }
    }
  }

  /** Then the metadata always fits, whatever its target: the only way past 512 bytes is inbound domains. */
  lemma InboundIPsFit(m: Meta, udp: Option<Destination>, readSourceAndLocal: bool, parse: bytes -> Address, rest: bytes)
    requires Understood(m, udp, readSourceAndLocal, parse) && InboundIPs(m)
    ensures EncodeBody(m, udp).Some? && |EncodeBody(m, udp).value| <= 305
    ensures Decode(Encode(m, udp).value + rest, readSourceAndLocal, parse) == Got(Learned(m, udp, readSourceAndLocal), rest)
  {
    InboundIPsBody(m, udp, readSourceAndLocal, parse);
    hide Understood, EncodeBody, Decode, Learned, Encode;
    FrameRoundTrip(m, udp, readSourceAndLocal, parse, rest);
  }

  lemma InboundIPsBody(m: Meta, udp: Option<Destination>, readSourceAndLocal: bool, parse: bytes -> Address)
    requires Understood(m, udp, readSourceAndLocal, parse) && InboundIPs(m)
    ensures EncodeBody(m, udp).Some? ==> |EncodeBody(m, udp).value| <= 305
  {
    hide EncodeInbound, WriteDest, WriteAddressPort, EncodePacketDest, Readable;
    DestBounded(m.target);
    if m.inbound.Some? {
      InboundIPsBounded(m.inbound.value);
    }
    if udp.Some? {
      DestBounded(udp.value);
    }
  }

  /** A domain of n times the letter a. */
  function Letters(n: nat): (a: Address)
    ensures a.Domain? && |a.name| == n && IsValidDomain(a.name)
    ensures forall parse: bytes -> Address :: 1 <= n <= 255 ==> Readable(a, parse)
  {
    Domain(seq(n, i => 97))
  }

  /** With inbound domains the limit is passed: three domains of 250 bytes are written, and the frame is refused. */
  lemma LongMetadataIsRefused(parse: bytes -> Address, rest: bytes)
    ensures var d := Destination(Tcp, Letters(250), 443);
            var m := Meta(1, NEW, 0, d, Zeros(8), Some(Inbound(d, d)));
            && Understood(m, None, true, parse) && Encode(m, None).Some?
            && Decode(Encode(m, None).value + rest, true, parse) == Fail
  {
    var d := Destination(Tcp, Letters(250), 443);
    var m := Meta(1, NEW, 0, d, Zeros(8), Some(Inbound(d, d)));
    assert Understood(m, None, true, parse);
    var w := WriteDest(d).value;
    assert |w| == 255;
    var body := EncodeBody(m, None).value;
    assert |body| == 769;
    U16RoundTrip(769);
    hide DecodeBody;
    var s := Encode(m, None).value + rest;
    assert s[0] == Hi(769) && s[1] == Lo(769);
  }

  // ---- The code that writes and reads the buffer ----

  /** Appends to the buffer field by field, then fills in the length left open at the front. */
  method WriteTo(m: Meta, udp: Option<Destination>) returns (r: Option<bytes>)
    ensures r == Encode(m, udp)
  {
    var b: bytes := [Hi(m.id), Lo(m.id)];
    b := b + [m.status];
    b := b + [m.option];
    ghost var head := [Hi(m.id), Lo(m.id), m.status, m.option];
    assert b == head;
    if m.status == NEW {
      if IsIPNetwork(m.target.network) {
        b := b + [NetworkByte(m.target.network)];
      }
      var target := WriteAddressPort(m.target.address, m.target.port);
      if target.None? {
        return None;
      }
      b := b + target.value;
      ghost var t := EncodeTarget(m.target).value;
      assert b == head + t;
      NilRight(t);
      if m.inbound.Some? {
        var tail := WriteInbound(m.inbound.value);
        if tail.None? {
          return None;
        }
        b := b + tail.value;
        Assoc(head, t, tail.value);
      } else if udp.Some? {
        b := b + m.globalID;
        Assoc(head, t, m.globalID);
      }
    } else if udp.Some? {
      b := b + [2];
      b := b + WritePort(udp.value.port);
      var w := WriteAddress(udp.value.address);
      if w.Some? {
        b := b + w.value;
      }
      assert b == head + EncodePacketDest(udp.value);
    }
    assert Some(b) == EncodeBody(m, udp);
    r := Some([Hi(|b|), Lo(|b|)] + b);
  }

  method WriteInbound(i: Inbound) returns (r: Option<bytes>)
    ensures r == EncodeInbound(i)
  {
    var b: bytes := [];
    if IsIPNetwork(i.source.network) {
      b := b + [NetworkByte(i.source.network)];
      var source := WriteAddressPort(i.source.address, i.source.port);
      if source.None? {
        return None;
      }
      b := b + source.value;
      assert b == WriteDest(i.source).value;
      if IsIPNetwork(i.local.network) {
        var local := WriteAddressPort(i.local.address, i.local.port);
        if local.None? {
          return None;
        }
        b := b + [NetworkByte(i.local.network)];
        b := b + local.value;
        assert b == WriteDest(i.source).value + WriteDest(i.local).value;
      }
    }
    r := Some(b);
  }
}
