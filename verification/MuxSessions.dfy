/** The client's session manager: identifiers, limits, idle close and teardown, over every run. */
module MuxSessions {
  import opened Options

  /** The strategy as configured; the connection limit is cut to 16 bits when it is used. */
  datatype Strategy = Strategy(maxConcurrency: nat, maxConnection: nat) {
    function Limit(): nat {
      maxConnection % 0x1_0000
    }
  }

  /**
   * The table of live sessions by identifier, the counter and the closed flag; and every session object ever made, in
   * order: its identifier, its closed flag, and how often its resources were released.
   */
  datatype Manager = Manager(sessions: map<nat, nat>, count: nat, closed: bool, ids: seq<nat>, done: seq<bool>, teardowns: seq<nat>)

  const NEW_MANAGER := Manager(map[], 0, false, [], [], [])

  predicate CanAllocate(m: Manager, strategy: Strategy) {
    && !m.closed
    && !(strategy.maxConcurrency > 0 && |m.sessions| >= strategy.maxConcurrency)
    && !(strategy.Limit() > 0 && m.count >= strategy.Limit())
  }

  function Allocated(m: Manager, strategy: Strategy): Manager {
    if !CanAllocate(m, strategy) then m
    else
      var id := (m.count + 1) % 0x1_0000;
      m.(count := id, sessions := m.sessions[id := |m.ids|], ids := m.ids + [id], done := m.done + [false], teardowns := m.teardowns + [0])
  }

  /** Session.Close for one object; a closed manager keeps its table as it is. */
  function SessionClosed(m: Manager, s: nat): Manager
    requires s < |m.ids| == |m.done| == |m.teardowns|
  {
    if m.done[s] then m
    else
      m.(done := m.done[s := true], teardowns := m.teardowns[s := m.teardowns[s] + 1],
      sessions := if m.closed then m.sessions else m.sessions - {m.ids[s]})
  }

  function IdleClosed(m: Manager, checkSize: nat, checkCount: nat): Manager {
    if m.closed || |m.sessions| != 0 || checkSize != 0 || checkCount != m.count then m else m.(closed := true, sessions := map[])
  }

  /** Close: every session in the table is closed. */
  ghost predicate AllClosed(m: Manager, m': Manager) {
    if m.closed then m' == m
    else
      && m'.closed && m'.sessions == map[] && m'.count == m.count && m'.ids == m.ids
      && |m'.done| == |m.done| && |m'.teardowns| == |m.teardowns| == |m.done|
      && forall s :: 0 <= s < |m.done| ==>
           if s in m.sessions.Values && !m.done[s] then m'.done[s] && m'.teardowns[s] == m.teardowns[s] + 1
           else m'.done[s] == m.done[s] && m'.teardowns[s] == m.teardowns[s]
  }

  // ---- The invariant ----

  /** Identifiers count up from 1. */
  ghost predicate Numbered(m: Manager, strategy: Strategy) {
    && |m.ids| == |m.done| == |m.teardowns| == m.count <= strategy.Limit()
    && forall s :: 0 <= s < |m.ids| ==> m.ids[s] == s + 1
  }

  /** The live sessions are the allocated ones that were not closed; each was torn down once if closed, else not at all. */
  ghost predicate Live(m: Manager)
    requires |m.ids| == |m.done| == |m.teardowns|
  {
    && (forall id :: id in m.sessions ==> m.sessions[id] < |m.ids| && m.ids[m.sessions[id]] == id && !m.done[m.sessions[id]] && !m.closed)
    && (forall s :: 0 <= s < |m.ids| && !m.done[s] && !m.closed ==> m.ids[s] in m.sessions && m.sessions[m.ids[s]] == s)
    && (forall s :: 0 <= s < |m.ids| ==> m.teardowns[s] == if m.done[s] then 1 else 0)
    && (m.closed ==> forall s :: 0 <= s < |m.ids| ==> m.done[s])
  }

  ghost predicate Inv(m: Manager, strategy: Strategy) {
    Numbered(m, strategy) && Live(m) && (strategy.maxConcurrency > 0 ==> |m.sessions| <= strategy.maxConcurrency)
  }

  lemma AllocateNumbered(m: Manager, strategy: Strategy)
    requires Numbered(m, strategy) && CanAllocate(m, strategy) && strategy.Limit() > 0
    ensures Numbered(Allocated(m, strategy), strategy) && Allocated(m, strategy).count == m.count + 1
    ensures Allocated(m, strategy).ids == m.ids + [m.count + 1]
  {
    assert (m.count + 1) % 0x1_0000 == m.count + 1;
  }

  lemma AllocateLive(m: Manager, m': Manager, id: nat)
    requires |m.ids| == |m.done| == |m.teardowns| && Live(m) && !m.closed && !m'.closed
    requires m'.ids == m.ids + [id] && m'.done == m.done + [false] && m'.teardowns == m.teardowns + [0]
    requires m'.sessions == m.sessions[id := |m.ids|] && id !in m.ids
    ensures Live(m') && |m'.sessions| == |m.sessions| + 1
  {
    assert id !in m.sessions;
    assert m'.sessions.Keys == m.sessions.Keys + {id};
    assert |m'.sessions.Keys| == |m.sessions.Keys| + 1;
  }

  lemma AllocateInv(m: Manager, strategy: Strategy)
    requires Inv(m, strategy) && strategy.Limit() > 0
    ensures Inv(Allocated(m, strategy), strategy)
  {
    if CanAllocate(m, strategy) {
      AllocateNumbered(m, strategy);
      AllocateLive(m, Allocated(m, strategy), m.count + 1);
    }
  }

  lemma CloseInv(m: Manager, strategy: Strategy, s: nat)
    requires Inv(m, strategy) && s < |m.ids|
    ensures Inv(SessionClosed(m, s), strategy)
  {
    if !m.done[s] && !m.closed {
      var m' := SessionClosed(m, s);
      assert m'.sessions.Keys == m.sessions.Keys - {m.ids[s]};
      assert |m'.sessions.Keys| == |m.sessions.Keys| - 1;
    }
  }

  lemma IdleInv(m: Manager, strategy: Strategy, checkSize: nat, checkCount: nat)
    requires Inv(m, strategy)
    ensures Inv(IdleClosed(m, checkSize, checkCount), strategy)
  {
    if |m.sessions| == 0 {
      assert m.sessions == map[];
      forall s | 0 <= s < |m.ids| && !m.closed ensures m.done[s] {
        assert m.ids[s] !in m.sessions;
      }
    }
  }

  lemma AllClosedInv(m: Manager, strategy: Strategy, m': Manager)
    requires Inv(m, strategy) && AllClosed(m, m')
    ensures Inv(m', strategy)
  {
    if !m.closed {
      forall s | 0 <= s < |m.ids| ensures m'.done[s] && m'.teardowns[s] == 1 {
        if !m.done[s] {
          assert m.ids[s] in m.sessions && m.sessions[m.ids[s]] == s;
        }
      }
    }
  }

  // ---- Runs ----

  datatype Call = CallAllocate | CallCloseSession(s: nat) | CallIdle(checkSize: nat, checkCount: nat) | CallClose

  ghost predicate Step(m: Manager, strategy: Strategy, call: Call, m': Manager) {
    match call
    case CallAllocate => m' == Allocated(m, strategy)
    case CallCloseSession(s) => s < |m.ids| == |m.done| == |m.teardowns| && m' == SessionClosed(m, s)
    case CallIdle(checkSize, checkCount) => m' == IdleClosed(m, checkSize, checkCount)
    case CallClose => AllClosed(m, m')
  }

  ghost predicate Run(states: seq<Manager>, strategy: Strategy, calls: seq<Call>) {
    && |states| == |calls| + 1
    && forall i :: 0 <= i < |calls| ==> Step(states[i], strategy, calls[i], states[i + 1])
  }

  lemma StepInv(m: Manager, strategy: Strategy, call: Call, m': Manager)
    requires Inv(m, strategy) && strategy.Limit() > 0 && Step(m, strategy, call, m')
    ensures Inv(m', strategy)
  {
    match call
    case CallAllocate => AllocateInv(m, strategy);
    case CallCloseSession(s) => CloseInv(m, strategy, s);
    case CallIdle(checkSize, checkCount) => IdleInv(m, strategy, checkSize, checkCount);
    case CallClose => AllClosedInv(m, strategy, m');
  }

  lemma {:induction false} RunInv(states: seq<Manager>, strategy: Strategy, calls: seq<Call>, i: nat)
    requires Run(states, strategy, calls) && states[0] == NEW_MANAGER && strategy.Limit() > 0 && i < |states|
    ensures Inv(states[i], strategy)
    decreases i
  {
    if i > 0 {
      RunInv(states, strategy, calls, i - 1);
      StepInv(states[i - 1], strategy, calls[i - 1], states[i]);
    }
  }

  /**
   * Over every run, whoever closes what and when: the identifiers handed out are 1, 2, 3 and so on without reuse; the live
   * sessions are the allocated ones not closed, and never more than allowed; each is torn down at most once.
   */
  lemma EveryRun(states: seq<Manager>, strategy: Strategy, calls: seq<Call>, i: nat)
    requires Run(states, strategy, calls) && states[0] == NEW_MANAGER && strategy.Limit() > 0 && i < |states|
    ensures var m := states[i];
            && |m.ids| == |m.done| == |m.teardowns| <= strategy.Limit()
            && (forall s :: 0 <= s < |m.ids| ==> m.ids[s] == s + 1 && m.teardowns[s] <= 1)
            && (!m.closed ==> m.sessions.Keys == set s | 0 <= s < |m.ids| && !m.done[s] :: m.ids[s])
            && (m.closed ==> forall s :: 0 <= s < |m.ids| ==> m.done[s])
            && (strategy.maxConcurrency > 0 ==> |m.sessions| <= strategy.maxConcurrency)
  {
    RunInv(states, strategy, calls, i);
    var m := states[i];
    if !m.closed {
      forall id | id in m.sessions ensures id in (set s | 0 <= s < |m.ids| && !m.done[s] :: m.ids[s]) {
        assert m.ids[m.sessions[id]] == id;
      }
    }
  }

  /** An idle close happens only when nothing is live and nothing was allocated since the two samples were taken. */
  lemma IdleCloseIsSafe(states: seq<Manager>, strategy: Strategy, calls: seq<Call>, sizeAt: nat, countAt: nat, i: nat)
    requires Run(states, strategy, calls) && states[0] == NEW_MANAGER && strategy.Limit() > 0
    requires sizeAt <= countAt <= i < |calls| && calls[i] == CallIdle(|states[sizeAt].sessions|, states[countAt].count)
    requires !states[i].closed && states[i + 1].closed
    ensures states[i].sessions == map[] && states[sizeAt].sessions == map[]
    ensures states[i].ids == states[countAt].ids && states[i + 1].ids == states[countAt].ids
    ensures |states[i].ids| == |states[i].done| && forall s :: 0 <= s < |states[i].ids| ==> states[i].done[s]
  {
    RunInv(states, strategy, calls, i);
    RunInv(states, strategy, calls, countAt);
    assert Step(states[i], strategy, calls[i], states[i + 1]);
    assert states[i].ids == states[countAt].ids;
    forall s | 0 <= s < |states[i].ids| ensures states[i].done[s] {
      assert states[i].ids[s] !in states[i].sessions;
    }
  }

  // ---- Without a limit ----

  /** The manager after n sessions were allocated and closed one after another. */
  function Worn(n: nat): Manager {
    Manager(map[], n % 0x1_0000, false, seq(n, s => (s + 1) % 0x1_0000), seq(n, s => true), seq(n, s => 1))
  }

  function WornBy(strategy: Strategy, j: nat): Manager {
    if j % 2 == 0 then Worn(j / 2) else Allocated(Worn(j / 2), strategy)
  }

  function WornCall(j: nat): Call {
    if j % 2 == 0 then CallAllocate else CallCloseSession(j / 2)
  }

  lemma WornAllocate(strategy: Strategy, n: nat)
    requires strategy.Limit() == 0
    ensures CanAllocate(Worn(n), strategy)
    ensures var id := (n + 1) % 0x1_0000;
            Allocated(Worn(n), strategy) == Manager(map[id := n], id, false, Worn(n + 1).ids, Worn(n).done + [false], Worn(n).teardowns + [0])
  {
    var m, id := Worn(n), (n + 1) % 0x1_0000;
    assert (m.count + 1) % 0x1_0000 == id;
    assert m.ids + [id] == Worn(n + 1).ids;
  }

  lemma WornOnce(strategy: Strategy, n: nat)
    requires strategy.Limit() == 0
    ensures CanAllocate(Worn(n), strategy)
    ensures var m := Allocated(Worn(n), strategy);
            |m.ids| == |m.done| == |m.teardowns| == n + 1 && SessionClosed(m, n) == Worn(n + 1)
  {
    WornAllocate(strategy, n);
    var m, w := Allocated(Worn(n), strategy), Worn(n + 1);
    hide Allocated, CanAllocate;
    assert m.ids[n] == (n + 1) % 0x1_0000;
    assert m.done[n := true] == w.done && m.teardowns[n := 1] == w.teardowns;
    assert m.sessions - {(n + 1) % 0x1_0000} == map[];
  }

  lemma WornStep(strategy: Strategy, j: nat)
    requires strategy.Limit() == 0
    ensures Step(WornBy(strategy, j), strategy, WornCall(j), WornBy(strategy, j + 1))
  {
    WornOnce(strategy, j / 2);
    if j % 2 == 1 {
      assert (j + 1) / 2 == j / 2 + 1;
    }
  }

  /**
   * The limit is what keeps identifiers unique: when its low 16 bits are zero it is no limit, and there is a run in which
   * the session after the 65536th gets the identifier of the first again.
   */
  lemma ReusedWithoutLimit(strategy: Strategy) returns (states: seq<Manager>, calls: seq<Call>)
    requires strategy.Limit() == 0
    ensures Run(states, strategy, calls) && states[0] == NEW_MANAGER
    ensures var m := states[|calls|]; |m.ids| == 0x1_0001 && m.ids[0] == m.ids[0x1_0000] == 1
  {
    var n := 2 * 0x1_0001;
    states, calls := seq(n + 1, (j: nat) => WornBy(strategy, j)), seq(n, (j: nat) => WornCall(j));
    forall i | 0 <= i < |calls| ensures Step(states[i], strategy, calls[i], states[i + 1]) {
      WornStep(strategy, i);
    }
    assert states[0] == NEW_MANAGER;
    assert states[n] == Worn(0x1_0001);
  }

  // ---- The object ----

  class SessionManager {
    var sessions: map<nat, nat>
    var count: nat
    var closed: bool
    /** The session objects, in the order in which they were made. */
    var ids: seq<nat>
    var done: seq<bool>
    ghost var teardowns: seq<nat>

    ghost function Value(): Manager
      reads this
    {
      Manager(sessions, count, closed, ids, done, teardowns)
    }

    constructor ()
      ensures Value() == NEW_MANAGER
    {
      sessions, count, closed, ids, done, teardowns := map[], 0, false, [], [], [];
    }

    method Allocate(strategy: Strategy) returns (s: Option<nat>)
      modifies this
      ensures Value() == Allocated(old(Value()), strategy)
      ensures s == if CanAllocate(old(Value()), strategy) then Some(|old(ids)|) else None
    {
      var maxConnection := strategy.maxConnection % 0x1_0000;
      if closed || (strategy.maxConcurrency > 0 && |sessions| >= strategy.maxConcurrency) || (maxConnection > 0 && count >= maxConnection) {
        return None;
      }
      count := (count + 1) % 0x1_0000;
      s := Some(|ids|);
      sessions := sessions[count := |ids|];
      ids, done, teardowns := ids + [count], done + [false], teardowns + [0];
    }

    /** Session.Close, with the manager's lock held. */
    method CloseSession(s: nat)
      requires s < |ids| == |done| == |teardowns|
      modifies this`done, this`teardowns, this`sessions
      ensures Value() == SessionClosed(old(Value()), s)
    {
      if done[s] {
        return;
      }
      done := done[s := true];
      teardowns := teardowns[s := teardowns[s] + 1];
      if !closed {
        sessions := sessions - {ids[s]};
      }
    }

    method CloseIfNoSessionAndIdle(checkSize: nat, checkCount: nat) returns (r: bool)
      modifies this`closed, this`sessions
      ensures Value() == IdleClosed(old(Value()), checkSize, checkCount) && r == closed
    {
      if closed {
        return true;
      }
      if |sessions| != 0 || checkSize != 0 || checkCount != count {
        return false;
      }
      closed, sessions := true, map[];
      r := true;
    }

    /** Closes every session of the table, in any order; each of them once. */
    method Close(strategy: Strategy)
      requires Inv(Value(), strategy)
      modifies this
      ensures AllClosed(old(Value()), Value())
    {
      if closed {
        return;
      }
      closed := true;
      var todo := sessions.Keys;
      while todo != {}
        invariant todo <= sessions.Keys && sessions == old(sessions) && closed && count == old(count) && ids == old(ids)
        invariant Closing(old(Value()), done, teardowns, todo)
        decreases |todo|
      {
        var id :| id in todo;
        ClosingNext(old(Value()), strategy, done, teardowns, todo, id);
        CloseSession(sessions[id]);
        todo := todo - {id};
      }
      sessions := map[];
    }
  }

  /** The sessions that are no longer to do are closed, once more each; the others are as they were. */
  ghost predicate Closing(m: Manager, done: seq<bool>, teardowns: seq<nat>, todo: set<nat>) {
    && |m.ids| == |m.done| == |m.teardowns| == |done| == |teardowns|
    && forall s :: 0 <= s < |done| ==>
         if s in m.sessions.Values && m.ids[s] !in todo && !m.done[s] then done[s] && teardowns[s] == m.teardowns[s] + 1
         else done[s] == m.done[s] && teardowns[s] == m.teardowns[s]
  }

  lemma ClosingNext(m: Manager, strategy: Strategy, done: seq<bool>, teardowns: seq<nat>, todo: set<nat>, id: nat)
    requires Inv(m, strategy) && Closing(m, done, teardowns, todo) && id in todo && todo <= m.sessions.Keys
    ensures m.sessions[id] < |done| && !done[m.sessions[id]]
    ensures Closing(m, done[m.sessions[id] := true], teardowns[m.sessions[id] := teardowns[m.sessions[id]] + 1], todo - {id})
  {
    assert m.sessions[id] in m.sessions.Values;
  }
}
