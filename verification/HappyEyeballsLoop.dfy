/** The race's event loop as the program runs it, and the order in which it tries the addresses. */
module HappyEyeballsLoop {
  import opened Bytes
  import opened NetAddress
  import opened Options
  import opened HappyEyeballs

  class RaceLoop {
    // the loop's own variables
    var nextTryIndex: nat
    var activeNum: int
    var armed: bool
    var winConn: Option<nat>
    var winClosed: bool
    var cancelled: bool
    var outcome: Outcome
    const maxConcurrentTry: nat
    // the goroutines, the channel and the caller's context
    var phases: seq<Phase>
    var results: seq<nat>
    var parentDone: bool
    var dialed: set<nat>
    var live: set<nat>

    function Value(): Race
      reads this
    {
      Race(phases, results, nextTryIndex, activeNum, maxConcurrentTry, armed, winConn, winClosed, cancelled, parentDone, outcome, dialed, live)
    }

    constructor (n: nat, maxConcurrentTry: nat)
      ensures Value() == Init(n, maxConcurrentTry)
    {
      this.maxConcurrentTry := maxConcurrentTry;
      nextTryIndex, activeNum, armed, winConn, winClosed, cancelled, outcome := 0, 0, true, None, false, false, Racing;
      phases, results, parentDone, dialed, live := seq(n, _ => Waiting), [], false, {}, {};
    }

    /** The case of the timer. */
    method OnTimer()
      requires Enabled(Value(), Tick)
      modifies this
      ensures Value() == Next(old(Value()), Tick)
    {
      armed := false;
      if nextTryIndex >= |phases| || activeNum == maxConcurrentTry {
        outcome := Panicked;
        return;
      }
      phases := phases[nextTryIndex := Dialing];
      activeNum := activeNum + 1;
      nextTryIndex := nextTryIndex + 1;
      if !(nextTryIndex == |phases| || activeNum == maxConcurrentTry) {
        armed := true;
      }
    }

    /** The case of a result. */
    method OnResult()
      requires Enabled(Value(), Receive)
      modifies this
      ensures Value() == Next(old(Value()), Receive)
    {
      hide ReceivedDone, ReceivedResult;
      var i := results[0];
      var conn := phases[i].conn;
      results := results[1..];
      phases := phases[i := Received];
      activeNum := activeNum - 1;
      if parentDone {
        CloseAll(i, conn);
      } else {
        Decide(i, conn);
      }
    }

    /** A result once the caller has given up. */
    method CloseAll(i: nat, conn: bool)
      requires outcome == Racing
      modifies this
      ensures Value() == ReceivedDone(old(Value()), i, conn)
    {
      cancelled, armed := true, false;
      if winConn.Some? {
        live := live - {winConn.value};
      }
      winClosed := winConn.Some?;
      if conn {
        live := live - {i};
      }
      if activeNum == 0 {
        outcome := Cancelled;
      }
    }

    method Decide(i: nat, conn: bool)
      requires outcome == Racing
      modifies this
      ensures Value() == ReceivedResult(old(Value()), i, conn)
    {
      if conn {
        cancelled, armed := true, false;
        if winConn.None? {
          winConn := Some(i);
        } else {
          live := live - {i};
        }
      }
      if winConn.Some? && activeNum == 0 {
        outcome := Won(winConn.value);
        return;
      }
      if winConn.Some? {
        return;
      }
      if nextTryIndex < |phases| {
        armed := true;
        return;
      }
      if activeNum == 0 {
        outcome := Failed;
        return;
      }
      armed := false;
    }

    /** One step of a dialing goroutine, or the caller's cancellation. */
    method Elsewhere(step: Step)
      requires !step.Tick? && !step.Receive? && Enabled(Value(), step)
      modifies this`phases, this`results, this`parentDone, this`dialed, this`live
      ensures Value() == Next(old(Value()), step)
    {
      match step
      case Open(i) => phases := phases[i := Opened]; dialed := dialed + {i}; live := live + {i};
      case Refuse(i) => phases := phases[i := Refused];
      case Check(i) =>
        var stop := cancelled || parentDone;
        phases := phases[i := Checked(phases[i].Opened? && !stop)];
        if stop {
          live := live - {i};
        }
      case Report(i) => phases := phases[i := Reported(phases[i].conn)]; results := results + [i];
      case CancelParent => parentDone := true;
    }

    /** The whole race, under any order of events: it ends, and leaves open at most the connection it returns. */
    method TcpRaceDial() returns (conn: Option<nat>)
      requires |phases| >= 2 && maxConcurrentTry >= 1 && Value() == Init(|phases|, maxConcurrentTry)
      modifies this
      ensures live == if conn.Some? then {conn.value} else {}
      ensures conn.Some? ==> conn.value in dialed
      ensures !parentDone ==> (conn.Some? <==> dialed != {})
      ensures conn.None? && !parentDone ==> forall i :: 0 <= i < |phases| ==> phases[i].Received?
    {
      InitInv(|phases|, maxConcurrentTry);
      while outcome == Racing
        invariant Inv(Value()) && |phases| >= 2
        decreases TotalLeft(phases) + if parentDone then 0 else 1
      {
        hide Inv, Next, Enabled, TotalLeft;
        Moves(Value());
        var step :| Enabled(Value(), step);
        KeepsInv(Value(), step);
        SizesStay(Value(), step);
        StepsLeft(Value(), step);
        if step.Tick? {
          OnTimer();
        } else if step.Receive? {
          OnResult();
        } else {
          Elsewhere(step);
        }
      }
      AtReturn(Value());
      conn := if outcome.Won? then Some(outcome.index) else None;
    }
  }

  // ---- The order of the addresses ----

  /** The addresses of one family, unmapped, in the order given. */
  function Family(ips: seq<IP>, size: nat): seq<bytes> {
    if ips == [] then []
    else
      var rest := Family(ips[..|ips| - 1], size);
      var ip := IPAddress(ips[|ips| - 1]).ip;
      if |ip| == size then rest + [ip] else rest
  }

  /** The elements of one size, in the order given. */
  function OfSize(ips: seq<bytes>, size: nat): seq<bytes> {
    if ips == [] then []
    else if |ips[0]| == size then [ips[0]] + OfSize(ips[1..], size)
    else OfSize(ips[1..], size)
  }

  /** Take from `a` in turns of `run`, `taken` of which are gone, then from `b`, and so on; the last list standing follows whole. */
  function Turns(a: seq<bytes>, b: seq<bytes>, run: nat, taken: nat): seq<bytes>
    requires a != [] && b != []
    decreases |a| + |b|
  {
    if |a| == 1 then [a[0]] + b
    else if taken + 1 == run then [a[0]] + Turns(b, a[1..], run, 0)
    else [a[0]] + Turns(a[1..], b, run, taken + 1)
  }

  /** Whole turns at a time: `run` addresses of one family, then the other family's turn. */
  lemma {:induction false} TurnsInRuns(a: seq<bytes>, b: seq<bytes>, run: nat, taken: nat)
    requires a != [] && b != [] && (run == 0 || taken < run)
    ensures Turns(a, b, run, taken) ==
            if run == 0 || |a| <= run - taken then a + b else a[..run - taken] + Turns(b, a[run - taken..], run, 0)
    decreases |a|
  {
    var x, rest := [a[0]], a[1..];
    assert a == x + rest;
    if |a| > 1 && taken + 1 != run {
      TurnsInRuns(rest, b, run, taken + 1);
      if run == 0 || |a| <= run - taken {
        Assoc(x, rest, b);
      } else {
        var n := run - taken;
        RunFront(a, n);
        Assoc(x, rest[..n - 1], Turns(b, a[n..], run, 0));
      }
    } else if |a| > 1 {
      assert a[..1] == x;
    }
  }

  lemma RunFront(a: seq<bytes>, n: nat)
    requires 1 <= n <= |a|
    ensures a[..n] == [a[0]] + a[1..][..n - 1] && a[1..][n - 1..] == a[n..]
  {
  }

  ghost predicate AllOfSize(ips: seq<bytes>, size: nat) {
    forall i :: 0 <= i < |ips| ==> |ips[i]| == size
  }

  lemma {:induction false} OfSizeAll(ips: seq<bytes>, size: nat, other: nat)
    requires AllOfSize(ips, size) && other != size
    ensures OfSize(ips, size) == ips && OfSize(ips, other) == []
    decreases |ips|
  {
    if ips != [] {
      OfSizeAll(ips[1..], size, other);
      assert ips == [ips[0]] + ips[1..];
    }
  }

  /** Interleaving loses nothing, adds nothing, and keeps each family in its own order. */
  lemma {:induction false} TurnsKeepOrder(a: seq<bytes>, b: seq<bytes>, run: nat, taken: nat, sizeA: nat, sizeB: nat)
    requires a != [] && b != [] && sizeA != sizeB && AllOfSize(a, sizeA) && AllOfSize(b, sizeB)
    ensures OfSize(Turns(a, b, run, taken), sizeA) == a && OfSize(Turns(a, b, run, taken), sizeB) == b
    ensures |Turns(a, b, run, taken)| == |a| + |b|
    decreases |a| + |b|
  {
    var r := Turns(a, b, run, taken);
    assert a == [a[0]] + a[1..] && r == [a[0]] + r[1..];
    assert AllOfSize(a[1..], sizeA);
    if |a| == 1 {
      OfSizeAll(b, sizeB, sizeA);
      assert r[1..] == b;
    } else if taken + 1 == run {
      TurnsKeepOrder(b, a[1..], run, 0, sizeB, sizeA);
      assert r[1..] == Turns(b, a[1..], run, 0);
    } else {
      TurnsKeepOrder(a[1..], b, run, taken + 1, sizeA, sizeB);
      assert r[1..] == Turns(a[1..], b, run, taken + 1);
    }
  }

  lemma {:induction false} FamilySize(ips: seq<IP>, size: nat)
    ensures AllOfSize(Family(ips, size), size)
    decreases |ips|
  {
    if ips != [] {
      FamilySize(ips[..|ips| - 1], size);
    }
  }

  /** The two loops that split the addresses by family. */
  method Split(ips: seq<IP>) returns (ip4: seq<bytes>, ip6: seq<bytes>)
    ensures ip4 == Family(ips, 4) && ip6 == Family(ips, 16) && |ip4| + |ip6| == |ips|
  {
    ip4, ip6 := [], [];
    for k := 0 to |ips|
      invariant ip4 == Family(ips[..k], 4) && ip6 == Family(ips[..k], 16) && |ip4| + |ip6| == k
    {
      assert ips[..k + 1][..k] == ips[..k];
      var parsed := IPAddress(ips[k]).ip;
      if |parsed| == 4 {
        ip4 := ip4 + [parsed];
      } else {
        ip6 := ip6 + [parsed];
      }
    }
    assert ips[..|ips|] == ips;
  }

  /** One address out of the list whose turn it is. */
  lemma OneTurn(done: seq<bytes>, a: seq<bytes>, n: nat, b: seq<bytes>, m: nat, run: nat, taken: nat)
    requires n < |a| && m < |b|
    ensures done + Turns(a[n..], b[m..], run, taken) ==
            done + [a[n]] + if n + 1 == |a| then b[m..]
                            else if taken + 1 == run then Turns(b[m..], a[n + 1..], run, 0)
                            else Turns(a[n + 1..], b[m..], run, taken + 1)
  {
    assert a[n..][0] == a[n] && a[n..][1..] == a[n + 1..];
  }

  method Interleave(ip4: seq<bytes>, ip6: seq<bytes>, prioritizeIPv6: bool, interleave: nat) returns (ips: seq<bytes>)
    requires ip4 != [] && ip6 != []
    ensures ips == if prioritizeIPv6 then Turns(ip6, ip4, interleave, 0) else Turns(ip4, ip6, interleave, 0)
  {
    ghost var all := if prioritizeIPv6 then Turns(ip6, ip4, interleave, 0) else Turns(ip4, ip6, interleave, 0);
    ips := [];
    var n4, n6, turn, ip4turn := 0, 0, 0, !prioritizeIPv6;
    while true
      invariant 0 <= n4 < |ip4| && 0 <= n6 < |ip6|
      invariant all == ips + if ip4turn then Turns(ip4[n4..], ip6[n6..], interleave, turn) else Turns(ip6[n6..], ip4[n4..], interleave, turn)
      decreases |ip4| + |ip6| - n4 - n6
    {
      hide Turns;
      if ip4turn {
        OneTurn(ips, ip4, n4, ip6, n6, interleave, turn);
        ips := ips + [ip4[n4]];
        n4 := n4 + 1;
        if n4 == |ip4| {
          return ips + ip6[n6..];
        }
        turn := turn + 1;
        if turn == interleave {
          ip4turn, turn := false, 0;
        }
      } else {
        OneTurn(ips, ip6, n6, ip4, n4, interleave, turn);
        ips := ips + [ip6[n6]];
        n6 := n6 + 1;
        if n6 == |ip6| {
          return ips + ip4[n4..];
        }
        turn := turn + 1;
        if turn == interleave {
          ip4turn, turn := true, 0;
        }
      }
    }
  }

  /** Both families are kept whole and in order, the preferred one comes first; a single family is left as it is. */
  method SortIPs(ips: seq<IP>, prioritizeIPv6: bool, interleave: nat) returns (r: seq<bytes>)
    ensures |r| == |ips|
    ensures Family(ips, 4) == [] || Family(ips, 16) == [] ==> r == ips
    ensures Family(ips, 4) != [] && Family(ips, 16) != [] ==>
              && OfSize(r, 4) == Family(ips, 4) && OfSize(r, 16) == Family(ips, 16)
              && r != [] && |r[0]| == (if prioritizeIPv6 then 16 else 4)
              && r == if prioritizeIPv6 then Turns(Family(ips, 16), Family(ips, 4), interleave, 0) else Turns(Family(ips, 4), Family(ips, 16), interleave, 0)
  {
    if |ips| == 0 {
      return ips;
    }
    var ip4, ip6 := Split(ips);
    if |ip4| == 0 || |ip6| == 0 {
      return ips;
    }
    r := Interleave(ip4, ip6, prioritizeIPv6, interleave);
    FamilySize(ips, 4);
    FamilySize(ips, 16);
    if prioritizeIPv6 {
      TurnsKeepOrder(ip6, ip4, interleave, 0, 16, 4);
    } else {
      TurnsKeepOrder(ip4, ip6, interleave, 0, 4, 16);
    }
  }
}
