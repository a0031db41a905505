/**
 * The pipe: a bounded queue of bytes between one reader and any number of writers, with two one-slot notifiers.
 * Each critical section, each channel operation and each return is one step; runs are arbitrary interleavings.
 */
module Pipe {
  import opened Bytes
  import opened Options

  datatype Status = Open | Closed | Errord

  datatype Error = BufferFull | ClosedPipe | Eof

  /** What the mutex protects. */
  datatype Core = Core(data: bytes, status: Status, done: bool)

  /** limit < 0 means no limit. */
  datatype Config = Config(limit: int, discardOverflow: bool)

  predicate IsFull(config: Config, size: nat) {
    config.limit >= 0 && size > config.limit
  }

  function GetState(core: Core, config: Config, forRead: bool): Option<Error> {
    match core.status
    case Open => if !forRead && IsFull(config, |core.data|) then Some(BufferFull) else None
    case Closed => if !forRead then Some(ClosedPipe) else if core.data != [] then None else Some(Eof)
    case Errord => Some(ClosedPipe)
  }

  /** The outcome of one look at the queue. */
  datatype Look = Nothing | Taken(data: bytes) | Failed(error: Error)

  function LookRead(core: Core, config: Config): Look {
    match GetState(core, config, true)
    case Some(e) => Failed(e)
    case None => if core.data == [] then Nothing else Taken(core.data)
  }

  function AfterRead(core: Core, config: Config): Core {
    if LookRead(core, config).Taken? then core.(data := []) else core
  }

  function AfterWrite(core: Core, config: Config, mb: bytes): Core {
    if GetState(core, config, false).None? then core.(data := core.data + mb) else core
  }

  function AfterClose(core: Core): Core {
    if core.status == Open then core.(status := Closed, done := true) else core
  }

  function AfterInterrupt(core: Core): Core {
    match core.status
    case Open => Core([], Errord, true)
    case Closed => if core.data == [] then core else Core([], Errord, core.done)
    case Errord => core.(data := [])
  }

  // ---- Interleavings ----

  /** Where the reader stands: between calls, about to look, about to signal and return, or in its select. */
  datatype ReaderPc = ReadIdle | ReadLook(timed: bool) | ReadSignal(look: Look) | ReadParked(timed: bool)

  datatype WriterPc = WriteIdle | WriteTry(mb: bytes) | WriteSignal(error: Option<Error>) | WriteParked(mb: bytes)

  datatype System = System(
    config: Config, core: Core, readToken: bool, writeToken: bool, pendingError: bool, reader: ReaderPc, writers: map<nat, WriterPc>,
    /** History: the writes accepted in lock order, the bytes handed to the reader, and whether an interrupt threw bytes away. */
    accepted: seq<(nat, bytes)>, delivered: bytes, lost: bool)
  {
    function Writer(i: nat): WriterPc {
      if i in writers then writers[i] else WriteIdle
    }
  }

  function Init(config: Config): System {
    System(config, Core([], Open, false), false, false, false, ReadIdle, map[], [], [], false)
  }

  datatype Step =
    | CallRead(timed: bool) | DoLook | DoReadSignal | WakeReadToken | WakeReadDone | LeaveError | LeaveTimeout
    | CallWrite(id: nat, mb: bytes) | DoTry(id: nat) | DoWriteSignal(id: nat) | WakeWriteToken(id: nat) | WakeWriteDone(id: nat)
    | DoClose | DoInterrupt | ReturnAnError | Recover

  /** Whether a step can be taken now. */
  predicate Enabled(s: System, step: Step) {
    match step
    case CallRead(_) => s.reader.ReadIdle?
    case DoLook => s.reader.ReadLook?
    case DoReadSignal => s.reader.ReadSignal?
    case WakeReadToken => s.reader.ReadParked? && s.readToken
    case WakeReadDone => s.reader.ReadParked? && s.core.done
    case LeaveError => s.reader == ReadParked(false) && s.pendingError
    case LeaveTimeout => s.reader == ReadParked(true)
    case CallWrite(id, _) => s.Writer(id).WriteIdle?
    case DoTry(id) => s.Writer(id).WriteTry?
    case DoWriteSignal(id) => s.Writer(id).WriteSignal?
    case WakeWriteToken(id) => s.Writer(id).WriteParked? && s.writeToken
    case WakeWriteDone(id) => s.Writer(id).WriteParked? && s.core.done
    case ReturnAnError => !s.pendingError
    case _ => true
  }

  /** One look of the reader. */
  function Looked(s: System): System
    requires s.reader.ReadLook?
  {
    var look := LookRead(s.core, s.config);
    var s' := s.(core := AfterRead(s.core, s.config),
                 delivered := if look.Taken? then s.delivered + look.data else s.delivered);
    if look.Nothing? then s'.(reader := ReadParked(s.reader.timed)) else s'.(reader := ReadSignal(look))
  }

  /** One try of a writer. */
  function Tried(s: System, id: nat): System
    requires s.Writer(id).WriteTry?
  {
    var mb := s.Writer(id).mb;
    match GetState(s.core, s.config, false)
    case None => s.(core := AfterWrite(s.core, s.config, mb), accepted := s.accepted + [(id, mb)], writers := s.writers[id := WriteSignal(None)])
    case Some(BufferFull) => s.(writers := s.writers[id := if s.config.discardOverflow then WriteIdle else WriteParked(mb)])
    case Some(e) => s.(writers := s.writers[id := WriteSignal(Some(e))])
  }

  function Next(s: System, step: Step): System
    requires Enabled(s, step)
  {
    match step
    case CallRead(timed) => s.(reader := ReadLook(timed))
    case DoLook => Looked(s)
    case DoReadSignal => s.(reader := ReadIdle, writeToken := true)
    case WakeReadToken => s.(reader := ReadLook(s.reader.timed), readToken := false)
    case WakeReadDone => s.(reader := ReadLook(s.reader.timed))
    case LeaveError => s.(reader := ReadIdle, pendingError := false)
    case LeaveTimeout => s.(reader := ReadIdle)
    case CallWrite(id, mb) => if mb == [] then s else s.(writers := s.writers[id := WriteTry(mb)])
    case DoTry(id) => Tried(s, id)
    case DoWriteSignal(id) => s.(writers := s.writers[id := WriteIdle], readToken := true)
    case WakeWriteToken(id) => s.(writers := s.writers[id := WriteTry(s.Writer(id).mb)], writeToken := false)
    case WakeWriteDone(id) => s.(writers := s.writers[id := WriteIdle])
    case DoClose => s.(core := AfterClose(s.core))
    case DoInterrupt => s.(core := AfterInterrupt(s.core), lost := s.lost || s.core.data != [])
    case ReturnAnError => s.(pendingError := true)
    case Recover => s.(pendingError := false)
  }

  ghost predicate Runs(s: System, steps: seq<Step>, t: System)
    decreases |steps|
  {
    if steps == [] then s == t else Enabled(s, steps[0]) && Runs(Next(s, steps[0]), steps[1..], t)
  }

  ghost predicate Reachable(config: Config, s: System) {
    exists steps :: Runs(Init(config), steps, s)
  }

  // ---- No lost wakeup ----

  /** A parked reader with data waiting has a token, or a writer is about to leave one. */
  ghost predicate ReaderServed(s: System) {
    s.core.status == Open && s.reader.ReadParked? && s.core.data != [] ==> s.readToken || exists i :: s.Writer(i).WriteSignal?
  }

  /** A parked writer has data before it, a token, a reader about to leave one, or another writer about to try again. */
  ghost predicate WriterServed(s: System) {
    s.core.status == Open && (exists i :: s.Writer(i).WriteParked?) ==>
      s.core.data != [] || s.writeToken || s.reader.ReadSignal? || exists i :: s.Writer(i).WriteTry?
  }

  function Flat(accepted: seq<(nat, bytes)>): bytes {
    if accepted == [] then [] else Flat(accepted[..|accepted| - 1]) + accepted[|accepted| - 1].1
  }

  /** Nothing invented, nothing reordered; nothing lost before an interrupt. */
  ghost predicate Conserved(s: System) {
    && s.delivered + s.core.data <= Flat(s.accepted)
    && (!s.lost ==> s.delivered + s.core.data == Flat(s.accepted))
    && (s.lost ==> s.core.data == [] && s.core.status == Errord)
  }

  /** The queue overruns its limit by at most the last write accepted. */
  ghost predicate Bounded(s: System) {
    s.config.limit >= 0 && s.core.data != [] ==>
      s.accepted != [] && |s.core.data| <= s.config.limit + |s.accepted[|s.accepted| - 1].1|
  }

  ghost predicate WellFormedCore(core: Core) {
    (core.done <==> core.status != Open) && (core.status == Errord ==> core.data == [])
  }

  ghost predicate WellFormed(s: System) {
    && WellFormedCore(s.core)
    && (forall i :: s.Writer(i).WriteTry? ==> s.Writer(i).mb != [])
    && (forall i :: s.Writer(i).WriteParked? ==> s.Writer(i).mb != [])
  }

  ghost predicate Inv(s: System) {
    WellFormed(s) && ReaderServed(s) && WriterServed(s) && Conserved(s) && Bounded(s)
  }

  lemma InitInv(config: Config)
    ensures Inv(Init(config))
  {
  }

  /** Only the writer that takes the step moves. */
  lemma OthersStay(s: System, step: Step)
    requires Enabled(s, step)
    ensures forall i: nat :: MovedBy(step) != Some(i) ==> Next(s, step).Writer(i) == s.Writer(i)
  {
  }

  function MovedBy(step: Step): Option<nat> {
    match step
    case CallWrite(id, _) => Some(id)
    case DoTry(id) => Some(id)
    case DoWriteSignal(id) => Some(id)
    case WakeWriteToken(id) => Some(id)
    case WakeWriteDone(id) => Some(id)
    case _ => None
  }

  lemma CoreStaysFormed(core: Core, config: Config, mb: bytes)
    requires WellFormedCore(core)
    ensures WellFormedCore(AfterRead(core, config)) && WellFormedCore(AfterWrite(core, config, mb))
    ensures WellFormedCore(AfterClose(core)) && WellFormedCore(AfterInterrupt(core))
  {
  }

  lemma KeepsWellFormedCore(s: System, step: Step)
    requires WellFormedCore(s.core) && Enabled(s, step)
    ensures WellFormedCore(Next(s, step).core)
  {
    CoreStaysFormed(s.core, s.config, if step.DoTry? then s.Writer(step.id).mb else []);
    hide WellFormedCore, AfterRead, AfterWrite, AfterClose, AfterInterrupt, LookRead;
    match step
    case DoTry(id) =>
    case DoLook =>
    case DoInterrupt =>
    case DoClose =>
    case _ => QueueStays(s, step);
  }

  lemma KeepsWellFormed(s: System, step: Step)
    requires WellFormed(s) && Enabled(s, step)
    ensures WellFormed(Next(s, step))
  {
    OthersStay(s, step);
    KeepsWellFormedCore(s, step);
    hide WellFormedCore, AfterWrite, AfterRead, AfterInterrupt, AfterClose, LookRead, IsFull;
    var t := Next(s, step);
    if MovedBy(step).Some? {
      var id := MovedBy(step).value;
      assert t.Writer(id).WriteTry? || t.Writer(id).WriteParked? ==> t.Writer(id).mb != [];
    }
  }

  lemma KeepsReaderServed(s: System, step: Step)
    requires WellFormed(s) && ReaderServed(s) && Enabled(s, step)
    ensures ReaderServed(Next(s, step))
  {
    OthersStay(s, step);
    var t := Next(s, step);
    if step.DoTry? && t.core != s.core {
      assert t.Writer(step.id).WriteSignal?;
    }
    if i: nat :| s.Writer(i).WriteSignal? {
      assert step == DoWriteSignal(i) || MovedBy(step) != Some(i);
    }
  }

  lemma KeepsWriterServed(s: System, step: Step)
    requires WellFormed(s) && WriterServed(s) && Enabled(s, step)
    ensures WriterServed(Next(s, step))
  {
    OthersStay(s, step);
    var t := Next(s, step);
    if t.core.status == Open && exists j :: t.Writer(j).WriteParked? {
      var j :| t.Writer(j).WriteParked?;
      if step.DoTry? {
        assert t.core.data != [];
      } else if step.WakeWriteToken? {
        assert t.Writer(step.id).WriteTry?;
      } else {
        assert s.Writer(j).WriteParked?;
        if i: nat :| s.Writer(i).WriteTry? {
          assert t.Writer(i).WriteTry?;
        }
      }
    }
  }

  /** Only four steps touch the queue or the history. */
  lemma QueueStays(s: System, step: Step)
    requires Enabled(s, step) && !step.DoTry? && !step.DoLook? && !step.DoInterrupt? && !step.DoClose?
    ensures var t := Next(s, step);
            t.config == s.config && t.core == s.core && t.accepted == s.accepted && t.delivered == s.delivered && t.lost == s.lost
  {
  }

  lemma TryConserves(s: System, id: nat)
    requires s.Writer(id).WriteTry? && WellFormed(s) && Conserved(s) && Bounded(s)
    ensures Conserved(Tried(s, id)) && Bounded(Tried(s, id))
  {
    if GetState(s.core, s.config, false).None? {
      var t, mb := Tried(s, id), s.Writer(id).mb;
      assert t.accepted[..|t.accepted| - 1] == s.accepted;
      Assoc(s.delivered, s.core.data, mb);
    }
  }

  lemma LookConserves(s: System)
    requires s.reader.ReadLook? && Conserved(s) && Bounded(s)
    ensures Conserved(Looked(s)) && Bounded(Looked(s))
  {
    hide Flat;
    NilRight(Looked(s).delivered);
  }

  lemma InterruptConserves(s: System)
    requires Conserved(s) && Bounded(s)
    ensures Conserved(Next(s, DoInterrupt)) && Bounded(Next(s, DoInterrupt))
  {
    hide Flat;
    NilRight(s.delivered);
  }

  lemma KeepsConserved(s: System, step: Step)
    requires WellFormed(s) && Conserved(s) && Bounded(s) && Enabled(s, step)
    ensures Conserved(Next(s, step)) && Bounded(Next(s, step))
  {
    hide Flat, Tried, Looked, AfterInterrupt;
    match step
    case DoTry(id) => TryConserves(s, id);
    case DoLook => LookConserves(s);
    case DoInterrupt => InterruptConserves(s);
    case DoClose =>
    case _ => QueueStays(s, step);
  }

  lemma KeepsInv(s: System, step: Step)
    requires Inv(s) && Enabled(s, step)
    ensures Inv(Next(s, step))
  {
    hide WellFormed, ReaderServed, WriterServed, Conserved, Bounded, Next, Enabled;
    KeepsWellFormed(s, step);
    KeepsReaderServed(s, step);
    KeepsWriterServed(s, step);
    KeepsConserved(s, step);
  }

  lemma {:induction false} RunKeepsInv(s: System, steps: seq<Step>, t: System)
    requires Inv(s) && Runs(s, steps, t)
    ensures Inv(t)
    decreases |steps|
  {
    hide Inv, Next, Enabled;
    if steps != [] {
      KeepsInv(s, steps[0]);
      RunKeepsInv(Next(s, steps[0]), steps[1..], t);
    }
  }

  /** Every state of every interleaving. */
  lemma ReachableInv(config: Config, s: System)
    requires Reachable(config, s)
    ensures Inv(s)
  {
    var steps :| Runs(Init(config), steps, s);
    InitInv(config);
    RunKeepsInv(Init(config), steps, s);
  }

  /** A step the pipe takes by itself: no new call, no timeout, no action from outside. */
  predicate Internal(step: Step) {
    match step
    case DoLook | DoReadSignal | WakeReadToken | WakeReadDone | DoTry(_) | DoWriteSignal(_) | WakeWriteToken(_) | WakeWriteDone(_) => true
    case _ => false
  }

  ghost predicate Quiet(s: System) {
    forall step :: Internal(step) ==> !Enabled(s, step)
  }

  /**
   * No lost wakeup: an open pipe that comes to rest keeps its reader waiting only when there is nothing to read, and a
   * writer waiting only when there is something to read and nobody is reading. So reader and writer never wait for each other.
   */
  lemma NoLostWakeup(config: Config, s: System)
    requires Reachable(config, s) && Quiet(s) && s.core.status == Open
    ensures s.reader.ReadIdle? || (s.reader.ReadParked? && s.core.data == [] && forall i :: s.Writer(i).WriteIdle?)
    ensures forall i :: s.Writer(i).WriteIdle? || (s.Writer(i).WriteParked? && s.core.data != [] && s.reader.ReadIdle?)
  {
    ReachableInv(config, s);
    assert !Enabled(s, DoLook) && !Enabled(s, DoReadSignal) && !Enabled(s, WakeReadToken);
    forall i ensures s.Writer(i).WriteIdle? || (s.Writer(i).WriteParked? && !s.writeToken) {
      assert !Enabled(s, DoTry(i)) && !Enabled(s, DoWriteSignal(i)) && !Enabled(s, WakeWriteToken(i));
    }
  }

  /** Once closed or interrupted, a pipe that comes to rest has nobody waiting. */
  lemma NobodyStaysParked(config: Config, s: System)
    requires Reachable(config, s) && Quiet(s) && s.core.status != Open
    ensures s.reader.ReadIdle? && forall i :: s.Writer(i).WriteIdle?
  {
    ReachableInv(config, s);
    assert !Enabled(s, DoLook) && !Enabled(s, DoReadSignal) && !Enabled(s, WakeReadDone);
    forall i ensures s.Writer(i).WriteIdle? {
      assert !Enabled(s, DoTry(i)) && !Enabled(s, DoWriteSignal(i)) && !Enabled(s, WakeWriteDone(i));
    }
  }

  // ---- Coming to rest ----

  /** What a call in progress can still do by itself. Once the pipe is done a look never parks again. */
  function ReaderWork(pc: ReaderPc, done: bool): nat {
    match pc
    case ReadIdle => 0
    case ReadSignal(_) => if done then 1 else 3
    case ReadLook(_) => if done then 2 else 4
    case ReadParked(_) => 3
  }

  function WriterWork(pc: WriterPc, done: bool): nat {
    match pc
    case WriteIdle => 0
    case WriteSignal(_) => if done then 1 else 3
    case WriteTry(_) => if done then 2 else 4
    case WriteParked(_) => 3
  }

  ghost function Total(writers: map<nat, WriterPc>, done: bool): nat {
    if writers == map[] then 0
    else var i :| i in writers; WriterWork(writers[i], done) + Total(writers - {i}, done)
  }

  lemma {:induction false} TotalWithout(writers: map<nat, WriterPc>, done: bool, i: nat)
    requires i in writers
    ensures Total(writers, done) == WriterWork(writers[i], done) + Total(writers - {i}, done)
    decreases |writers|
  {
    var j :| j in writers && Total(writers, done) == WriterWork(writers[j], done) + Total(writers - {j}, done);
    if j != i {
      assert writers - {i} - {j} == writers - {j} - {i};
      TotalWithout(writers - {j}, done, i);
      TotalWithout(writers - {i}, done, j);
    }
  }

  lemma TotalMoved(s: System, id: nat, pc: WriterPc, done: bool)
    ensures Total(s.writers[id := pc], done) == Total(s.writers, done) - WriterWork(s.Writer(id), done) + WriterWork(pc, done)
  {
    var moved := s.writers[id := pc];
    TotalWithout(moved, done, id);
    assert moved - {id} == s.writers - {id};
    if id in s.writers {
      TotalWithout(s.writers, done, id);
    } else {
      assert s.writers - {id} == s.writers;
    }
  }

  /** An upper bound on the steps the pipe can take by itself: open, a token is worth one more round of its waiter. */
  ghost function Work(s: System): nat {
    ReaderWork(s.reader, s.core.done) + Total(s.writers, s.core.done)
    + if s.core.done then 0 else (if s.readToken then 2 else 0) + (if s.writeToken then 2 else 0)
  }

  lemma ReaderStepsWork(s: System, step: Step)
    requires WellFormedCore(s.core) && Enabled(s, step) && step in {DoLook, DoReadSignal, WakeReadToken, WakeReadDone}
    ensures Work(Next(s, step)) < Work(s)
  {
    hide Total;
    var t := Next(s, step);
    assert t.core.done == s.core.done && t.writers == s.writers;
  }

  lemma WriterStepsWork(s: System, step: Step)
    requires WellFormedCore(s.core) && Enabled(s, step) && Internal(step) && MovedBy(step).Some?
    ensures Work(Next(s, step)) < Work(s)
  {
    hide Total;
    var t, id := Next(s, step), MovedBy(step).value;
    TotalMoved(s, id, t.Writer(id), s.core.done);
    assert t.core.done == s.core.done && t.writers == s.writers[id := t.Writer(id)];
  }

  lemma StepsWork(s: System, step: Step)
    requires WellFormedCore(s.core) && Enabled(s, step) && Internal(step)
    ensures Work(Next(s, step)) < Work(s)
  {
    hide Next, Enabled, Work;
    if MovedBy(step).Some? {
      WriterStepsWork(s, step);
    } else {
      ReaderStepsWork(s, step);
    }
  }

  /** From any reachable state the pipe comes to rest within a bounded number of its own steps, in any order. */
  lemma {:induction false} ComesToRest(s: System, steps: seq<Step>, t: System)
    requires WellFormedCore(s.core) && Runs(s, steps, t) && forall i :: 0 <= i < |steps| ==> Internal(steps[i])
    ensures |steps| + Work(t) <= Work(s)
    decreases |steps|
  {
    hide Next, Enabled, WellFormedCore, Work, Internal;
    if steps != [] {
      StepsWork(s, steps[0]);
      KeepsWellFormedCore(s, steps[0]);
      ComesToRest(Next(s, steps[0]), steps[1..], t);
    }
  }

  // ---- End of stream ----

  ghost predicate Drained(s: System) {
    s.core.status == Closed && s.core.data == []
  }

  lemma DrainedStays(s: System, step: Step)
    requires Drained(s) && Enabled(s, step)
    ensures Drained(Next(s, step)) && Next(s, step).delivered == s.delivered
  {
  }

  /** A drained pipe stays drained whatever happens, and whoever looks is told the end of the stream. */
  lemma {:induction false} EofRepeats(s: System, steps: seq<Step>, t: System)
    requires Drained(s) && Runs(s, steps, t)
    ensures Drained(t) && t.delivered == s.delivered && LookRead(t.core, t.config) == Failed(Eof)
    decreases |steps|
  {
    if steps != [] {
      DrainedStays(s, steps[0]);
      hide Next, Enabled;
      EofRepeats(Next(s, steps[0]), steps[1..], t);
    }
  }

  /** A closed pipe that still holds bytes gives all of them to the next look, and is drained then. */
  lemma CloseDrains(s: System)
    requires s.core.status == Closed && s.core.data != [] && s.reader.ReadLook?
    ensures Looked(s).reader == ReadSignal(Taken(s.core.data)) && Drained(Looked(s))
  {
  }

  /** A stream read to its end is exactly what was accepted. */
  lemma EofIsComplete(config: Config, s: System)
    requires Reachable(config, s) && LookRead(s.core, s.config) == Failed(Eof)
    ensures s.delivered == Flat(s.accepted)
  {
    ReachableInv(config, s);
    NilRight(s.delivered);
  }

  /** A write goes in exactly when the pipe is open and its contents are within the limit. */
  lemma AcceptedWithinLimit(s: System, id: nat)
    requires s.Writer(id).WriteTry?
    ensures Tried(s, id).accepted != s.accepted <==> s.core.status == Open && (s.config.limit < 0 || |s.core.data| <= s.config.limit)
  {
    assert |s.accepted + [(id, s.Writer(id).mb)]| != |s.accepted|;
  }
}
