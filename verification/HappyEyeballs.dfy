/**
 * The Happy Eyeballs race (section 5 of RFC 8305): an event loop over a timer and a channel of results, and one dialing
 * goroutine per address. Runs interleave the loop's turns with the goroutines' steps and the caller's cancellation.
 */
module HappyEyeballs {
  import opened Options

  /**
   * One address: not tried, dialing, the dialer has returned, the goroutine has looked at its context, its result is in
   * the channel, its result was received.
   */
  datatype Phase = Waiting | Dialing | Opened | Refused | Checked(conn: bool) | Reported(conn: bool) | Received

  datatype Outcome = Racing | Won(index: nat) | Failed | Cancelled | Panicked

  datatype Race = Race(
    phases: seq<Phase>, results: seq<nat>, nextTry: nat, active: int, maxConcurrent: nat, armed: bool,
    winner: Option<nat>, winnerClosed: bool, cancelled: bool, parentDone: bool, outcome: Outcome,
    /** History: which tries opened a connection, and which connections are open now. */
    dialed: set<nat>, live: set<nat>)

  function Init(n: nat, maxConcurrent: nat): Race {
    Race(seq(n, _ => Waiting), [], 0, 0, maxConcurrent, true, None, false, false, false, Racing, {}, {})
  }

  datatype Step = Tick | Receive | Open(i: nat) | Refuse(i: nat) | Check(i: nat) | Report(i: nat) | CancelParent

  predicate Enabled(r: Race, step: Step) {
    match step
    case Tick => r.outcome == Racing && r.armed
    case Receive => r.outcome == Racing && r.results != [] && r.results[0] < |r.phases| && r.phases[r.results[0]].Reported?
    case Open(i) => i < |r.phases| && r.phases[i] == Dialing
    case Refuse(i) => i < |r.phases| && r.phases[i] == Dialing
    case Check(i) => i < |r.phases| && r.phases[i] in {Opened, Refused}
    case Report(i) => i < |r.phases| && r.phases[i].Checked?
    case CancelParent => !r.parentDone
  }

  /** The timer case of the loop. */
  function Ticked(r: Race): Race {
    if r.nextTry >= |r.phases| || r.active == r.maxConcurrent then r.(armed := false, outcome := Panicked)
    else
      var next, active := r.nextTry + 1, r.active + 1;
      r.(phases := r.phases[r.nextTry := Dialing], active := active, nextTry := next,
      armed := !(next == |r.phases| || active == r.maxConcurrent))
  }

  /** The result case of the loop, once the caller has given up. */
  function ReceivedDone(r: Race, i: nat, conn: bool): Race {
    var live := r.live - (if r.winner.Some? then {r.winner.value} else {}) - (if conn then {i} else {});
    r.(cancelled := true, armed := false, live := live, winnerClosed := r.winner.Some?,
    outcome := if r.active == 0 then Cancelled else Racing)
  }

  /** The result case of the loop otherwise. */
  function ReceivedResult(r: Race, i: nat, conn: bool): Race {
    var r1 :=
      if !conn then r
      else if r.winner.None? then r.(cancelled := true, armed := false, winner := Some(i))
      else r.(cancelled := true, armed := false, live := r.live - {i});
    if r1.winner.Some? then r1.(outcome := if r1.active == 0 then Won(r1.winner.value) else Racing)
    else if r1.nextTry < |r1.phases| then r1.(armed := true)
    else if r1.active == 0 then r1.(outcome := Failed)
    else r1.(armed := false)
  }

  function Next(r: Race, step: Step): Race
    requires Enabled(r, step)
  {
    match step
    case Tick => Ticked(r)
    case Receive =>
      var i := r.results[0];
      var conn := r.phases[i].conn;
      var r1 := r.(results := r.results[1..], phases := r.phases[i := Received], active := r.active - 1);
      if r.parentDone then ReceivedDone(r1, i, conn) else ReceivedResult(r1, i, conn)
    case Open(i) => r.(phases := r.phases[i := Opened], dialed := r.dialed + {i}, live := r.live + {i})
    case Refuse(i) => r.(phases := r.phases[i := Refused])
    case Check(i) =>
      if r.cancelled || r.parentDone
      then r.(phases := r.phases[i := Checked(false)], live := r.live - {i})
      else r.(phases := r.phases[i := Checked(r.phases[i].Opened?)])
    case Report(i) => r.(phases := r.phases[i := Reported(r.phases[i].conn)], results := r.results + [i])
    case CancelParent => r.(parentDone := true)
  }

  ghost predicate Runs(r: Race, steps: seq<Step>, t: Race)
    decreases |steps|
  {
    if steps == [] then r == t else Enabled(r, steps[0]) && Runs(Next(r, steps[0]), steps[1..], t)
  }

  // ---- The invariant ----

  /** A try that was started and whose result the loop has not received. */
  predicate IsActive(p: Phase) {
    !p.Waiting? && !p.Received?
  }

  function Active(phases: seq<Phase>): nat {
    if phases == [] then 0 else Active(phases[1..]) + if IsActive(phases[0]) then 1 else 0
  }

  /** Tries start in order, and the loop's counter is the number of results still to come. */
  ghost predicate Counted(r: Race) {
    && r.nextTry <= |r.phases|
    && (forall i :: 0 <= i < |r.phases| ==> (r.phases[i].Waiting? <==> i >= r.nextTry))
    && r.active == Active(r.phases)
    && 0 <= r.active <= r.maxConcurrent
  }

  /** The channel holds exactly the reported tries, each once. */
  ghost predicate Queued(r: Race) {
    && (forall k :: 0 <= k < |r.results| ==> r.results[k] < |r.phases| && r.phases[r.results[k]].Reported?)
    && (forall i :: 0 <= i < |r.phases| && r.phases[i].Reported? ==> i in r.results)
    && (forall j, k :: 0 <= j < k < |r.results| ==> r.results[j] != r.results[k])
  }

  /** An armed timer may fire; a loop that waits has something to wait for. */
  ghost predicate Timed(r: Race) {
    && (r.armed && r.outcome == Racing ==> r.nextTry < |r.phases| && r.active < r.maxConcurrent && r.winner.None?)
    && (r.outcome == Racing ==> r.armed || r.active > 0)
    && (r.outcome != Racing ==> r.outcome != Panicked && r.active == 0)
  }

  predicate Holds(p: Phase) {
    p == Opened || p == Checked(true) || p == Reported(true)
  }

  /** Who owns an open connection: its goroutine, the channel, or the loop as the winner. */
  ghost predicate OwnedAt(r: Race, i: nat) {
    && (i in r.live <==> (i < |r.phases| && Holds(r.phases[i])) || (r.winner == Some(i) && !r.winnerClosed))
    && (i < |r.phases| && Holds(r.phases[i]) ==> i in r.dialed)
    && (i in r.dialed ==> i < |r.phases| && !r.phases[i].Waiting? && !r.phases[i].Dialing?)
    && (i in r.dialed && !r.cancelled && !r.parentDone ==> Holds(r.phases[i]))
  }

  ghost predicate Owned(r: Race) {
    forall i: nat :: OwnedAt(r, i)
  }

  /** How the race can end, and what it means. */
  ghost predicate Ended(r: Race) {
    && (r.winner.Some? ==> r.cancelled && r.winner.value < |r.phases| && r.phases[r.winner.value].Received? && r.winner.value in r.dialed)
    && (r.winnerClosed ==> r.parentDone)
    && (r.cancelled ==> r.winner.Some? || r.parentDone)
    && (r.outcome.Won? ==> r.winner == Some(r.outcome.index) && !r.winnerClosed)
    && (r.outcome == Failed ==> r.nextTry == |r.phases| && r.winner.None? && r.dialed == {})
    && (r.outcome == Cancelled ==> r.parentDone && (r.winner.Some? ==> r.winnerClosed))
  }

  ghost predicate Inv(r: Race) {
    Counted(r) && Queued(r) && Timed(r) && Owned(r) && Ended(r)
  }

  lemma {:induction false} ActiveMoved(phases: seq<Phase>, i: nat, p: Phase)
    requires i < |phases|
    ensures Active(phases[i := p]) == Active(phases) - (if IsActive(phases[i]) then 1 else 0) + (if IsActive(p) then 1 else 0)
    decreases |phases|
  {
    if i > 0 {
      assert phases[i := p][1..] == phases[1..][i - 1 := p];
      ActiveMoved(phases[1..], i - 1, p);
    } else {
      assert phases[i := p][1..] == phases[1..];
    }
  }

  lemma {:induction false} NoneActive(phases: seq<Phase>)
    ensures Active(phases) == 0 <==> forall i :: 0 <= i < |phases| ==> !IsActive(phases[i])
    decreases |phases|
  {
    if phases != [] {
      NoneActive(phases[1..]);
      assert phases == [phases[0]] + phases[1..];
    }
  }

  lemma {:induction false} NoneStarted(n: nat)
    ensures Active(seq(n, _ => Waiting)) == 0
  {
    var phases: seq<Phase> := seq(n, _ => Waiting);
    NoneActive(phases);
  }

  lemma InitInv(n: nat, maxConcurrent: nat)
    requires n >= 1 && maxConcurrent >= 1
    ensures Inv(Init(n, maxConcurrent))
  {
    NoneStarted(n);
  }

  /** Which try a step moves, and to which phase. */
  function Moved(r: Race, step: Step): (m: Option<(nat, Phase)>)
    requires Enabled(r, step) && Counted(r) && Timed(r)
    ensures m.Some? ==> m.value.0 < |r.phases|
  {
    match step
    case Tick => Some((r.nextTry, Dialing))
    case Receive => Some((r.results[0], Received))
    case Open(i) => Some((i, Opened))
    case Refuse(i) => Some((i, Refused))
    case Check(i) => Some((i, Checked(r.phases[i].Opened? && !r.cancelled && !r.parentDone)))
    case Report(i) => Some((i, Reported(r.phases[i].conn)))
    case CancelParent => None
  }

  lemma PhasesMove(r: Race, step: Step)
    requires Enabled(r, step) && Counted(r) && Timed(r)
    ensures match Moved(r, step)
            case None => Next(r, step).phases == r.phases
            case Some(m) => Next(r, step).phases == r.phases[m.0 := m.1]
  {
  }

  lemma KeepsCounted(r: Race, step: Step)
    requires Enabled(r, step) && Counted(r) && Timed(r)
    ensures Counted(Next(r, step))
  {
    PhasesMove(r, step);
    var m := Moved(r, step);
    if m.Some? {
      ActiveMoved(r.phases, m.value.0, m.value.1);
    }
    hide Active;
  }

  lemma QueuedMoved(r: Race, t: Race, i: nat, p: Phase)
    requires Queued(r) && i < |r.phases| && t.phases == r.phases[i := p] && t.results == r.results
    requires !r.phases[i].Reported? && !p.Reported?
    ensures Queued(t)
  {
  }

  lemma QueuedReceive(r: Race, t: Race)
    requires Queued(r) && r.results != [] && t.phases == r.phases[r.results[0] := Received] && t.results == r.results[1..]
    ensures Queued(t)
  {
    assert r.results == [r.results[0]] + t.results;
  }

  lemma QueuedReport(r: Race, t: Race, i: nat, p: Phase)
    requires Queued(r) && i < |r.phases| && t.phases == r.phases[i := p] && t.results == r.results + [i]
    requires !r.phases[i].Reported? && p.Reported?
    ensures Queued(t)
  {
    assert i in t.results;
  }

  lemma KeepsQueued(r: Race, step: Step)
    requires Enabled(r, step) && Counted(r) && Timed(r) && Queued(r)
    ensures Queued(Next(r, step))
  {
    PhasesMove(r, step);
    var t, m := Next(r, step), Moved(r, step);
    hide Queued;
    match step
    case Receive => QueuedReceive(r, t);
    case Report(i) => QueuedReport(r, t, i, m.value.1);
    case CancelParent => QueuedSame(r, t);
    case _ => QueuedMoved(r, t, m.value.0, m.value.1);
  }

  lemma QueuedSame(r: Race, t: Race)
    requires Queued(r) && t.phases == r.phases && t.results == r.results
    ensures Queued(t)
  {
  }

  lemma KeepsTimed(r: Race, step: Step)
    requires Enabled(r, step) && Counted(r) && Timed(r)
    ensures Timed(Next(r, step))
  {
    hide Active;
    if step.Receive? {
      ActivePositive(r.phases, r.results[0]);
    }
  }

  lemma {:induction false} ActivePositive(phases: seq<Phase>, i: nat)
    requires i < |phases| && IsActive(phases[i])
    ensures Active(phases) > 0
  {
    NoneActive(phases);
  }

  lemma KeepsOwnedAt(r: Race, step: Step, i: nat)
    requires Enabled(r, step) && Counted(r) && Timed(r) && Ended(r) && OwnedAt(r, i)
    requires step.Receive? ==> OwnedAt(r, r.results[0])
    ensures OwnedAt(Next(r, step), i)
  {
    hide Active;
    PhasesMove(r, step);
  }

  lemma KeepsOwned(r: Race, step: Step)
    requires Enabled(r, step) && Counted(r) && Timed(r) && Owned(r) && Ended(r)
    ensures Owned(Next(r, step))
  {
    hide Next, OwnedAt, Counted, Timed, Ended;
    forall i: nat ensures OwnedAt(Next(r, step), i) {
      assert OwnedAt(r, i);
      assert step.Receive? ==> OwnedAt(r, r.results[0]);
      KeepsOwnedAt(r, step, i);
    }
  }

  /** When nothing is active and nobody cancelled, no dial ever succeeded. */
  lemma NothingDialed(r: Race)
    requires Counted(r) && Owned(r) && r.active == 0 && !r.cancelled && !r.parentDone
    ensures r.dialed == {}
  {
    NoneActive(r.phases);
    hide Active;
    assert forall i: nat :: OwnedAt(r, i) ==> i !in r.dialed;
  }

  lemma KeepsEnded(r: Race, step: Step)
    requires Enabled(r, step) && Inv(r)
    ensures Ended(Next(r, step))
  {
    PhasesMove(r, step);
    if step.Receive? {
      ReceiveEnded(r);
    } else if step.Open? {
      ActivePositive(r.phases, step.i);
    }
    hide Active, Owned, Queued, ReceivedDone, ReceivedResult;
  }

  lemma ReceiveEnded(r: Race)
    requires Enabled(r, Receive) && Inv(r)
    ensures Ended(Next(r, Receive))
  {
    KeepsCounted(r, Receive);
    KeepsOwned(r, Receive);
    var t := Next(r, Receive);
    hide Active, Owned, Queued, Counted;
    if t.outcome == Failed {
      NothingDialed(t);
    }
    assert OwnedAt(r, r.results[0]) by { assert Owned(r); }
  }

  lemma SizesStay(r: Race, step: Step)
    requires Enabled(r, step)
    ensures |Next(r, step).phases| == |r.phases| && Next(r, step).maxConcurrent == r.maxConcurrent
  {
  }

  lemma KeepsInv(r: Race, step: Step)
    requires Enabled(r, step) && Inv(r)
    ensures Inv(Next(r, step))
  {
    hide Next, Counted, Queued, Timed, Owned, Ended;
    KeepsCounted(r, step);
    KeepsQueued(r, step);
    KeepsTimed(r, step);
    KeepsOwned(r, step);
    KeepsEnded(r, step);
  }

  lemma {:induction false} RunKeepsInv(r: Race, steps: seq<Step>, t: Race)
    requires Inv(r) && Runs(r, steps, t)
    ensures Inv(t) && |t.phases| == |r.phases| && t.maxConcurrent == r.maxConcurrent
    decreases |steps|
  {
    hide Inv, Next, Enabled;
    if steps != [] {
      SizesStay(r, steps[0]);
      KeepsInv(r, steps[0]);
      RunKeepsInv(Next(r, steps[0]), steps[1..], t);
    }
  }

  // ---- What the race promises, over every run ----

  /** The "impossible situation" is impossible, and no more tries run at once than allowed. */
  lemma NeverPanics(n: nat, maxConcurrent: nat, steps: seq<Step>, r: Race)
    requires n >= 2 && maxConcurrent >= 1 && Runs(Init(n, maxConcurrent), steps, r)
    ensures r.outcome != Panicked && Active(r.phases) <= maxConcurrent
  {
    InitInv(n, maxConcurrent);
    RunKeepsInv(Init(n, maxConcurrent), steps, r);
  }

  lemma Moves(r: Race)
    requires Inv(r) && r.outcome == Racing
    ensures exists step :: step != CancelParent && Enabled(r, step)
  {
    NoneActive(r.phases);
    if r.armed {
      assert Enabled(r, Tick);
    } else {
      var i :| 0 <= i < |r.phases| && IsActive(r.phases[i]);
      match r.phases[i]
      case Dialing => assert Enabled(r, Open(i));
      case Opened => assert Enabled(r, Check(i));
      case Refused => assert Enabled(r, Check(i));
      case Checked(_) => assert Enabled(r, Report(i));
      case Reported(_) => assert Enabled(r, Receive);
    }
  }

  /** Until it returns, the race can go on by itself: a timer fires, a dial ends, a result is checked, sent or received. */
  lemma NeverStuck(n: nat, maxConcurrent: nat, steps: seq<Step>, r: Race)
    requires n >= 2 && maxConcurrent >= 1 && Runs(Init(n, maxConcurrent), steps, r) && r.outcome == Racing
    ensures exists step :: step != CancelParent && Enabled(r, step)
  {
    InitInv(n, maxConcurrent);
    RunKeepsInv(Init(n, maxConcurrent), steps, r);
    Moves(r);
  }

  lemma AtReturn(r: Race)
    requires Inv(r) && r.outcome != Racing
    ensures r.live == if r.outcome.Won? then {r.outcome.index} else {}
    ensures r.outcome.Won? ==> r.outcome.index in r.dialed
    ensures r.outcome == Failed ==> r.dialed == {} && forall i :: 0 <= i < |r.phases| ==> r.phases[i].Received?
    ensures r.outcome == Cancelled ==> r.parentDone
    ensures !r.parentDone ==> (r.outcome.Won? <==> r.dialed != {})
    ensures !r.outcome.Panicked?
  {
    NoneActive(r.phases);
    forall i: nat ensures i in r.live <==> r.outcome == Won(i) {
      assert OwnedAt(r, i);
    }
  }

  /**
   * When the race has returned, every connection that was ever opened is closed, except the one returned, which is open.
   * It fails only after every address was tried in vain, and without a cancellation it never throws a success away.
   */
  lemma ReturnClosesTheRest(n: nat, maxConcurrent: nat, steps: seq<Step>, r: Race)
    requires n >= 2 && maxConcurrent >= 1 && Runs(Init(n, maxConcurrent), steps, r) && r.outcome != Racing
    ensures r.live == if r.outcome.Won? then {r.outcome.index} else {}
    ensures r.outcome.Won? ==> r.outcome.index in r.dialed
    ensures r.outcome == Failed ==> r.dialed == {} && |r.phases| == n && forall i :: 0 <= i < n ==> r.phases[i].Received?
    ensures r.outcome == Cancelled ==> r.parentDone
    ensures !r.parentDone ==> (r.outcome.Won? <==> r.dialed != {})
  {
    InitInv(n, maxConcurrent);
    RunKeepsInv(Init(n, maxConcurrent), steps, r);
    AtReturn(r);
  }

  /** Steps a try has before it. */
  function Left(p: Phase): nat {
    match p
    case Waiting => 5
    case Dialing => 4
    case Opened => 3
    case Refused => 3
    case Checked(_) => 2
    case Reported(_) => 1
    case Received => 0
  }

  function TotalLeft(phases: seq<Phase>): nat {
    if phases == [] then 0 else Left(phases[0]) + TotalLeft(phases[1..])
  }

  lemma {:induction false} TotalMoved(phases: seq<Phase>, i: nat, p: Phase)
    requires i < |phases|
    ensures TotalLeft(phases[i := p]) == TotalLeft(phases) - Left(phases[i]) + Left(p)
    decreases |phases|
  {
    if i > 0 {
      assert phases[i := p][1..] == phases[1..][i - 1 := p];
      TotalMoved(phases[1..], i - 1, p);
    } else {
      assert phases[i := p][1..] == phases[1..];
    }
  }

  lemma {:induction false} TotalInit(n: nat, phases: seq<Phase>)
    requires |phases| == n && forall i :: 0 <= i < n ==> phases[i] == Waiting
    ensures TotalLeft(phases) == 5 * n
    decreases n
  {
    if n > 0 {
      TotalInit(n - 1, phases[1..]);
    }
  }

  lemma StepsLeft(r: Race, step: Step)
    requires Enabled(r, step) && Inv(r)
    ensures TotalLeft(Next(r, step).phases) + (if Next(r, step).parentDone then 0 else 1) < TotalLeft(r.phases) + if r.parentDone then 0 else 1
  {
    PhasesMove(r, step);
    var m := Moved(r, step);
    if m.Some? {
      TotalMoved(r.phases, m.value.0, m.value.1);
    }
    hide TotalLeft, Active, Owned, Queued, Ended;
  }

  lemma {:induction false} RunsEnd(r: Race, steps: seq<Step>, t: Race)
    requires Inv(r) && Runs(r, steps, t)
    ensures |steps| <= TotalLeft(r.phases) + if r.parentDone then 0 else 1
    decreases |steps|
  {
    hide Inv, Next, Enabled, TotalLeft;
    if steps != [] {
      KeepsInv(r, steps[0]);
      StepsLeft(r, steps[0]);
      RunsEnd(Next(r, steps[0]), steps[1..], t);
    }
  }

  /** Whatever the order of events, the whole race is over within five steps per address and one cancellation. */
  lemma AlwaysReturns(n: nat, maxConcurrent: nat, steps: seq<Step>, r: Race)
    requires n >= 2 && maxConcurrent >= 1 && Runs(Init(n, maxConcurrent), steps, r)
    ensures |steps| <= 5 * n + 1
  {
    InitInv(n, maxConcurrent);
    RunsEnd(Init(n, maxConcurrent), steps, r);
    TotalInit(n, Init(n, maxConcurrent).phases);
  }
}
