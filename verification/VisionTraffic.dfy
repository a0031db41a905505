/** The traffic state one connection shares between its Vision readers and writers, the unpadding loop and the TLS filter. */
module VisionTraffic {
  import opened Bytes
  import opened VisionUnpadding

  /** What buf.Buffer.Write leaves in a pooled buffer: data beyond the capacity is dropped. */
  function Written(buffer: bytes, data: bytes): (r: bytes)
    requires |buffer| <= SIZE
    ensures |r| <= SIZE
    ensures |buffer| + |data| <= SIZE ==> r == buffer + data
  {
    if |data| <= SIZE - |buffer| then buffer + data else buffer + data[..SIZE - |buffer|]
  }

  /** One turn of the XtlsUnpadding loop, up to the "block done" test: what is left to read and what is handed out. */
  method Turn(l: Link, b: bytes) returns (next: Link, rest: bytes, taken: bytes)
    requires l.Valid() && !l.Initial() && b != []
    ensures |rest| < |b| && |taken| + |rest| <= |b|
    ensures next.Settle().Valid()
    ensures After(l, b) == After(next.Settle(), rest)
    ensures Output(l, b) == taken + Output(next.Settle(), rest)
  {
    hide After, Output;
    if l.cmd > 0 {
      FeedHeaderByte(l, b);
      next, rest, taken := l.Header(b[0]), b[1..], [];
    } else if l.content > 0 {
      var n := if |b| < l.content then |b| else l.content;
      TurnContent(l, b, n);
      next, rest, taken := l.(content := l.content - n), b[n..], b[..n];
    } else {
      var n := if |b| < l.padding then |b| else l.padding;
      TurnPadding(l, b, n);
      next, rest, taken := l.(padding := l.padding - n), b[n..], [];
    }
  }

  /** The loop of XtlsUnpadding, on the counters and the unread bytes of the buffer. */
  method Unpad(start: Link, unread: bytes) returns (l: Link, newbuffer: bytes)
    requires start.Valid() && !start.Initial() && |unread| <= SIZE
    ensures l == After(start, unread) && newbuffer == Output(start, unread)
    ensures l.Valid() && |newbuffer| <= |unread|
  {
    l, newbuffer := start, [];
    var b := unread;
    while |b| > 0
      invariant |newbuffer| + |b| <= |unread|
      invariant l.Valid() && (b != [] ==> !l.Initial())
      invariant After(start, unread) == After(l, b)
      invariant Output(start, unread) == newbuffer + Output(l, b)
      decreases |b|
    {
      var taken;
      l, b, taken := Turn(l, b);
      Assoc(newbuffer, taken, Output(l.Settle(), b));
      newbuffer := Written(newbuffer, taken);
      if l.cmd <= 0 && l.content <= 0 && l.padding <= 0 {
        if l.current == 0 {
          l := l.(cmd := 5);
        } else {
          l := Link(-1, -1, -1, l.current);
          FeedInitial(l, b);
          if |b| > 0 {
            newbuffer := Written(newbuffer, b);
          }
          b := [];
          assert Output(start, unread) == newbuffer;
          return;
        }
      }
    }
    assert b == [] && newbuffer + [] == newbuffer;
  }

  /** InboundState and OutboundState have the same shape: one reader link and one writer link. */
  datatype EndState = EndState(
    link: Link,
    withinPadding: bool,
    readerDirect: bool,
    isPadding: bool,
    writerDirect: bool)

  const SERVER_HELLO_START: bytes := [0x16, 0x03, 0x03]
  const CLIENT_HELLO_START: bytes := [0x16, 0x03]
  const TLS13_VERSIONS: bytes := [0x00, 0x2b, 0x00, 0x02, 0x03, 0x04]

  predicate ContainsAt(b: bytes, pattern: bytes, i: nat) {
    i + |pattern| <= |b| && b[i..i + |pattern|] == pattern
  }

  predicate Contains(b: bytes, pattern: bytes) {
    exists i :: 0 <= i <= |b| && ContainsAt(b, pattern, i)
  }

  predicate StartsServerHello(b: bytes) {
    |b| >= 6 && b[..3] == SERVER_HELLO_START && b[5] == 2
  }

  predicate StartsClientHello(b: bytes) {
    |b| >= 6 && b[..2] == CLIENT_HELLO_START && b[5] == 1
  }

  /** The five TLS 1.3 suites; the last one, TLS_AES_128_CCM_8_SHA256, does not enable XTLS. */
  predicate SuiteEnablesXtls(cipher: nat) {
    0x1301 <= cipher <= 0x1304
  }

  class TrafficState {
    const userUUID: bytes
    var packetsToFilter: int
    var enableXtls: bool
    var isTLS12orAbove: bool
    var isTLS: bool
    var cipher: nat
    var remainingServerHello: int
    var inbound: EndState
    var outbound: EndState

    ghost predicate Valid()
      reads this
    {
      && |userUUID| == 16
      && inbound.link.Valid() && outbound.link.Valid()
      && (enableXtls ==> isTLS12orAbove)
      && (isTLS12orAbove ==> isTLS)
      && (remainingServerHello > 0 ==> isTLS12orAbove)
    }

    /** The end a reader of the given direction works on. */
    function Reading(isUplink: bool): EndState
      reads this
    {
      if isUplink then inbound else outbound
    }

    /** The end a writer of the given direction works on. */
    function Writing(isUplink: bool): EndState
      reads this
    {
      if isUplink then outbound else inbound
    }

    constructor (userUUID: bytes)
      requires |userUUID| == 16
      ensures Valid() && this.userUUID == userUUID
      ensures forall isUplink :: Reading(isUplink) == EndState(Link(-1, -1, -1, 0), true, false, true, false)
      ensures packetsToFilter == 8 && !isTLS
    {
      this.userUUID := userUUID;
      packetsToFilter := 8;
      enableXtls, isTLS12orAbove, isTLS := false, false, false;
      cipher := 0;
      remainingServerHello := -1;
      inbound := EndState(Link(-1, -1, -1, 0), true, false, true, false);
      outbound := EndState(Link(-1, -1, -1, 0), true, false, true, false);
    }

    method SetReading(isUplink: bool, e: EndState)
      requires Valid() && e.link.Valid()
      modifies this`inbound, this`outbound
      ensures Valid() && Reading(isUplink) == e && Reading(!isUplink) == old(Reading(!isUplink))
    {
      if isUplink {
        inbound := e;
      } else {
        outbound := e;
      }
    }

    method SetWriting(isUplink: bool, e: EndState)
      requires Valid() && e.link.Valid()
      modifies this`inbound, this`outbound
      ensures Valid() && Writing(isUplink) == e && Writing(!isUplink) == old(Writing(!isUplink))
    {
      SetReading(!isUplink, e);
    }

    /**
     * XtlsUnpadding: block by block over one buffer. The loop ends because every turn consumes at least one byte, the
     * output buffer never overflows, and the new counters and the output are those of the byte automaton.
     */
    method XtlsUnpadding(b: bytes, isUplink: bool) returns (out: bytes)
      requires Valid() && |b| <= SIZE
      modifies this`inbound, this`outbound
      ensures Valid() && |out| <= |b|
      ensures Reading(isUplink) ==
              old(Reading(isUplink)).(link := AfterChunk(userUUID, old(Reading(isUplink)).link, b))
      ensures Reading(!isUplink) == old(Reading(!isUplink))
      ensures out == ChunkOutput(userUUID, old(Reading(isUplink)).link, b)
    {
      var l := Reading(isUplink).link;
      if l.cmd == -1 && l.content == -1 && l.padding == -1 {
        if |b| >= 21 && userUUID == b[..16] {
          l, out := Unpad(l.(cmd := 5), b[16..]);
        } else {
          return b;
        }
      } else {
        l, out := Unpad(l, b);
      }
      SetReading(isUplink, Reading(isUplink).(link := l));
    }

    /** The first half of a filter turn: a hello raises flags and a server hello starts a countdown. */
    method NoteHello(b: bytes)
      requires Valid()
      modifies this`isTLS12orAbove, this`isTLS, this`cipher, this`remainingServerHello
      ensures Valid()
      ensures (old(isTLS12orAbove) ==> isTLS12orAbove) && (old(isTLS) ==> isTLS)
      ensures isTLS && !old(isTLS) ==> StartsServerHello(b) || StartsClientHello(b)
    {
      if |b| >= 6 {
        if b[..3] == SERVER_HELLO_START && b[5] == 2 {
          remainingServerHello := U16(b[3], b[4]) + 5;
          isTLS12orAbove := true;
          isTLS := true;
          if |b| >= 79 && remainingServerHello >= 79 {
            var sessionIdLen: int := b[43];
            var at := 43 + sessionIdLen + 1;
            if at + 2 <= |b| {
              cipher := U16(b[at], b[at + 1]);
            } else {
              // the two bytes lie behind the content, in what the pooled array held before
              var stale: nat :| stale < 0x1_0000;
              cipher := stale;
            }
          }
        } else if b[..2] == CLIENT_HELLO_START && b[5] == 1 {
          isTLS := true;
        }
      }
    }

    /** XtlsFilterTls: looks for TLS hellos. Flags are only ever raised, in the order the other code relies on. */
    method XtlsFilterTls(buffer: seq<bytes>)
      requires Valid()
      modifies this`packetsToFilter, this`enableXtls, this`isTLS12orAbove, this`isTLS, this`cipher, this`remainingServerHello
      ensures Valid()
      ensures old(enableXtls) ==> enableXtls
      ensures old(isTLS12orAbove) ==> isTLS12orAbove
      ensures old(isTLS) ==> isTLS
      ensures isTLS && !old(isTLS) ==> exists i :: 0 <= i < |buffer| && (StartsServerHello(buffer[i]) || StartsClientHello(buffer[i]))
      ensures enableXtls && !old(enableXtls) ==> packetsToFilter == 0 && exists i :: 0 <= i < |buffer| && Contains(buffer[i], TLS13_VERSIONS)
      ensures old(packetsToFilter) >= 0 ==> packetsToFilter <= old(packetsToFilter)
    {
      hide StartsServerHello, StartsClientHello, Contains;
      var i := 0;
      while i < |buffer|
        invariant 0 <= i <= |buffer| && Valid()
        invariant old(enableXtls) == enableXtls
        invariant old(isTLS12orAbove) ==> isTLS12orAbove
        invariant old(isTLS) ==> isTLS
        invariant isTLS && !old(isTLS) ==> exists k :: 0 <= k < i && (StartsServerHello(buffer[k]) || StartsClientHello(buffer[k]))
        invariant packetsToFilter == old(packetsToFilter) - i
      {
        var b := buffer[i];
        packetsToFilter := packetsToFilter - 1;
        NoteHello(b);
        if remainingServerHello > 0 {
          var end := if remainingServerHello > |b| then |b| else remainingServerHello;
          remainingServerHello := remainingServerHello - |b|;
          if Contains(b[..end], TLS13_VERSIONS) {
            if SuiteEnablesXtls(cipher) {
              enableXtls := true;
            }
            packetsToFilter := 0;
            ContainsFront(b, end);
            return;
          } else if remainingServerHello <= 0 {
            packetsToFilter := 0;
            return;
          }
        }
        i := i + 1;
      }
    }
  }

  lemma ContainsFront(b: bytes, end: nat)
    requires end <= |b| && Contains(b[..end], TLS13_VERSIONS)
    ensures Contains(b, TLS13_VERSIONS)
  {
    var k :| 0 <= k <= end && ContainsAt(b[..end], TLS13_VERSIONS, k);
    assert b[..end][k..k + 6] == b[k..k + 6];
    assert ContainsAt(b, TLS13_VERSIONS, k);
  }

  // ---- The cipher suite of a server hello ----

  /** The two bytes behind the session identifier lie in the buffer's array, of which `room` bytes follow the content. */
  predicate CipherInArray(b: bytes, room: nat)
    requires |b| >= 79
  {
    var sessionIdLen: int := b[43];
    43 + sessionIdLen + 3 <= |b| + room
  }

  /** A window with at least 301 bytes of array before it never runs out of it, whatever the hello says. */
  lemma CipherAlwaysInArray(b: bytes, room: nat)
    requires |b| >= 79 && |b| + room >= 301
    ensures CipherInArray(b, room)
  {
  }

  /** An array that ends with a hello of 79 bytes does not hold them if the hello claims the longest identifier. */
  lemma CipherOutsideArray(b: bytes)
    requires |b| == 79 && b[43] == 255
    ensures !CipherInArray(b, 0)
  {
  }
}
