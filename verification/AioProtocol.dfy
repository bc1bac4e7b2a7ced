/**
  The asynchronous writer as a transition system: any number of client threads that lock the
  queue, append to it, unlock and signal; the worker that drains it; aio_close, aio_wait and
  aio_free. Steps are cut at every point where the lock, the semaphore or the file is used, so
  every interleaving of the source's threads is a run. The ring is the concrete one of AioRing.
*/
module AioProtocol {
  import opened Bytes
  import opened Wrappers
  import opened AioRing

  datatype Finish = RUNNING | CLOSE | EXIT

  datatype Holder = Nobody | Worker | Client(t: nat)

  datatype WorkerPc =
    | Locking                      // about to take the lock
    | Checking                     // holds the lock, at the top of the loop
    | Waiting                      // has given up the lock; about to wait or blocked in sphore_wait
    | Writing(chunk: seq<byte>)    // has given up the lock with chunk in its local buffer
    | Releasing(doFree: bool)      // has dropped its reference and the lock
    | Exited
  {
    predicate Gone() { Releasing? || Exited? }

    function InFlight(): seq<byte> { if Writing? then chunk else [] }
  }

  datatype ClientPc =
    | Idle
    | InRecord(done: seq<byte>, todo: seq<seq<byte>>) // holds the lock between its writes
    | InClose                       // holds the lock in aio_close
    | InWait                        // holds the lock in aio_wait
    | Signalling(join: bool)        // has given up the lock, has not signalled yet
    | Joining                       // in thread_wait
    | InFree                        // holds the lock in aio_free
    | FreeReleasing(doFree: bool)   // has dropped its reference and the lock
  {
    predicate HoldsLock() { InRecord? || InClose? || InWait? || InFree? }

    predicate WillSignal() { InRecord? || InClose? || InWait? || Signalling? }
  }

  datatype State = State(
    ring: Ring, sem: nat, holder: Holder, finish: Finish, refcount: int,
    worker: WorkerPc, clients: seq<ClientPc>,
    freer: Option<nat>,             // the thread that has called aio_free
    file: seq<byte>, closed: bool, freed: nat,
    enqueued: seq<byte>,            // history: every write so far, in lock order
    records: seq<seq<byte>>,        // history: the finished locked sections' bytes
    peak: nat)                      // history: longest queue so far

  datatype Step =
    | WLock | WTake | WWrite | WIdle | WWake | WExit | WRelease
    | BeginRecord(t: nat, pieces: seq<seq<byte>>) | CWrite(t: nat) | EndRecord(t: nat)
    | BeginClose(t: nat) | EndClose(t: nat)
    | BeginWait(t: nat) | EndWait(t: nat)
    | Signal(t: nat) | Join(t: nat)
    | BeginFree(t: nat) | EndFree(t: nat) | ClientRelease(t: nat)
  {
    predicate IsBegin() { BeginRecord? || BeginClose? || BeginWait? || BeginFree? }

    predicate IsClient() { !(WLock? || WTake? || WWrite? || WIdle? || WWake? || WExit? || WRelease?) }
  }

  ghost predicate Init(s: State) {
    && s.ring.Valid() && s.ring.Contents() == [] && |s.ring.cells| == ASYNC_BUFSIZE
    && s.sem == 0 && s.holder == Nobody && s.finish == RUNNING && s.refcount == 2
    && s.worker == Locking && (forall t :: 0 <= t < |s.clients| ==> s.clients[t] == Idle)
    && s.freer == None && s.file == [] && !s.closed && s.freed == 0
    && s.enqueued == [] && s.records == [] && s.peak == 0
  }

  /** What aio_new creates, with any bytes in its buffer and any number of threads about to use it. */
  lemma NewObjectIsInitial(cells: seq<byte>, threads: nat)
    requires |cells| == ASYNC_BUFSIZE
    ensures Init(State(Ring(cells, 0, 0), 0, Nobody, RUNNING, 2, Locking, seq(threads, _ => Idle), None, [], false, 0,
                       [], [], 0))
  {
    NeverFull(Ring(cells, 0, 0));
  }

  function Max(a: nat, b: nat): nat {
    if a < b then b else a
  }

  // ----- the worker's steps (aio_thread) -----

  ghost predicate WorkerStep(s: State, step: Step, s2: State)
    requires s.ring.Valid()
  {
    match step
    case WLock =>
      s.worker == Locking && s.holder == Nobody && s2 == s.(worker := Checking, holder := Worker)
    case WTake =>
      && s.worker == Checking && s.ring.Contents() != []
      && s2.worker.Writing? && Took(s.ring, s2.worker.chunk, s2.ring)
      && s2 == s.(worker := s2.worker, ring := s2.ring, holder := Nobody)
    case WWrite =>
      s.worker.Writing? && s2 == s.(worker := Locking, file := s.file + s.worker.chunk)
    case WIdle =>
      && s.worker == Checking && s.ring.Contents() == [] && s.finish == RUNNING
      && s2 == s.(worker := Waiting, holder := Nobody)
    case WWake =>
      s.worker == Waiting && s.sem > 0 && s2 == s.(worker := Locking, sem := s.sem - 1)
    case WExit =>
      && s.worker == Checking && s.ring.Contents() == [] && s.finish != RUNNING
      && s2 == s.(worker := Releasing(s.refcount - 1 == 0), holder := Nobody,
                  refcount := s.refcount - 1, closed := s.closed || s.finish == CLOSE)
    case WRelease =>
      && s.worker.Releasing?
      && s2 == s.(worker := Exited, freed := if s.worker.doFree then s.freed + 1 else s.freed)
    case _ => false
  }

  // ----- the clients' steps -----

  /** Client t moves from its current program point to pc, taking the lock on the way. */
  ghost predicate Acquire(s: State, t: nat, pc: ClientPc, s2: State)
    requires t < |s.clients|
  {
    && s.clients[t] == Idle && s.holder == Nobody && s.freer == None
    && s2 == s.(clients := s.clients[t := pc], holder := Client(t), freer := s2.freer)
  }

  ghost predicate ClientStep(s: State, step: Step, s2: State)
    requires s.ring.Valid() && step.IsClient() && step.t < |s.clients|
  {
    var t := step.t;
    var pc := s.clients[t];
    match step
    case BeginRecord(_, pieces) => Acquire(s, t, InRecord([], pieces), s2) && s2.freer == None
    case CWrite(_) =>
      && pc.InRecord? && pc.todo != [] && Wrote(s.ring, pc.todo[0], s2.ring)
      && s2 == s.(ring := s2.ring, enqueued := s.enqueued + pc.todo[0],
                  clients := s.clients[t := InRecord(pc.done + pc.todo[0], pc.todo[1..])],
                  peak := Max(s.peak, |s2.ring.Contents()|))
    case EndRecord(_) =>
      && pc.InRecord? && pc.todo == []
      && s2 == s.(clients := s.clients[t := Signalling(false)], holder := Nobody,
                  records := s.records + [pc.done])
    case BeginClose(_) => Acquire(s, t, InClose, s2) && s2.freer == None
    case EndClose(_) =>
      && pc.InClose?
      && s2 == s.(clients := s.clients[t := Signalling(false)], holder := Nobody, finish := CLOSE)
    case BeginWait(_) => Acquire(s, t, InWait, s2) && s2.freer == None
    case EndWait(_) =>
      && pc.InWait?
      && s2 == s.(clients := s.clients[t := Signalling(true)], holder := Nobody,
                  finish := if s.finish == RUNNING then EXIT else s.finish)
    case Signal(_) =>
      && pc.Signalling?
      && s2 == s.(clients := s.clients[t := if pc.join then Joining else Idle], sem := s.sem + 1)
    case Join(_) =>
      pc.Joining? && s.worker == Exited && s2 == s.(clients := s.clients[t := Idle])
    case BeginFree(_) =>
      // the owner's duty: no other call is in progress, and none starts afterwards
      && (forall u :: 0 <= u < |s.clients| ==> s.clients[u] == Idle)
      && Acquire(s, t, InFree, s2) && s2.freer == Some(t)
    case EndFree(_) =>
      && pc.InFree?
      && s2 == s.(clients := s.clients[t := FreeReleasing(s.refcount - 1 == 0)], holder := Nobody,
                  refcount := s.refcount - 1)
    case ClientRelease(_) =>
      && pc.FreeReleasing?
      && s2 == s.(clients := s.clients[t := Idle], freed := if pc.doFree then s.freed + 1 else s.freed)
    case _ => false
  }

  ghost predicate Next(s: State, step: Step, s2: State) {
    && s.ring.Valid()
    && if step.IsClient() then step.t < |s.clients| && ClientStep(s, step, s2) else WorkerStep(s, step, s2)
  }

  ghost predicate IsRun(run: seq<State>, steps: seq<Step>) {
    && |run| == |steps| + 1
    && forall i :: 0 <= i < |steps| ==> Next(run[i], steps[i], run[i + 1])
  }

  // ----- what every reachable state satisfies -----

  /** The bytes of the locked section in progress. */
  ghost function Partial(s: State): seq<byte> {
    if s.holder.Client? && s.holder.t < |s.clients| && s.clients[s.holder.t].InRecord?
    then s.clients[s.holder.t].done else []
  }

  /** Nothing is lost, duplicated or reordered between the callers and the file. */
  ghost predicate Conserved(s: State) {
    && s.ring.Valid()
    && s.file + s.worker.InFlight() + s.ring.Contents() == s.enqueued
    && s.enqueued == Concat(s.records) + Partial(s)
  }

  ghost predicate LockDiscipline(s: State) {
    && (s.holder == Worker <==> s.worker == Checking)
    && (s.holder.Client? ==> s.holder.t < |s.clients|)
    && (forall t :: 0 <= t < |s.clients| ==> (s.clients[t].HoldsLock() <==> s.holder == Client(t)))
  }

  ghost predicate HasWork(s: State)
    requires s.ring.Valid()
  {
    s.ring.Contents() != [] || s.finish != RUNNING
  }

  ghost predicate WakeupPending(s: State) {
    s.sem > 0 || exists t :: 0 <= t < |s.clients| && s.clients[t].WillSignal()
  }

  ghost predicate NoLostWakeup(s: State)
    requires s.ring.Valid()
  {
    s.worker == Waiting && HasWork(s) ==> WakeupPending(s)
  }

  /** The owner's reference is held until aio_free has dropped it. */
  ghost predicate OwnerHolds(s: State) {
    s.freer == None || (s.freer.value < |s.clients| && s.clients[s.freer.value] == InFree)
  }

  ghost function PendingFrees(s: State): nat {
    (if s.worker == Releasing(true) then 1 else 0)
    + (if s.freer.Some? && s.freer.value < |s.clients| && s.clients[s.freer.value] == FreeReleasing(true) then 1 else 0)
  }

  ghost predicate References(s: State) {
    && s.refcount == (if s.worker.Gone() then 0 else 1) + (if OwnerHolds(s) then 1 else 0)
    && s.freed + PendingFrees(s) + (if s.refcount > 0 then 1 else 0) == 1
    && (forall t :: 0 <= t < |s.clients| && (s.clients[t].InFree? || s.clients[t].FreeReleasing?) ==>
          s.freer == Some(t))
    && (s.freer.Some? ==>
        && s.freer.value < |s.clients|
        && (var pc := s.clients[s.freer.value]; pc.Idle? || pc.InFree? || pc.FreeReleasing?)
        && forall t :: 0 <= t < |s.clients| && t != s.freer.value ==> s.clients[t] == Idle)
  }

  ghost predicate Shutdown(s: State) {
    && (s.worker.Gone() ==> s.finish != RUNNING)
    && (s.closed ==> s.worker.Gone())
  }

  ghost predicate Bounded(s: State)
    requires s.ring.Valid()
  {
    && |s.ring.Contents()| <= s.peak
    && (|s.ring.cells| == ASYNC_BUFSIZE || |s.ring.cells| < 2 * (s.peak + 1))
  }

  ghost predicate Inv(s: State) {
    && Conserved(s) && LockDiscipline(s) && NoLostWakeup(s)
    && References(s) && Shutdown(s) && Bounded(s)
  }

  lemma InitInv(s: State)
    requires Init(s)
    ensures Inv(s)
  {
  }

  lemma WorkerKeepsConserved(s: State, step: Step, s2: State)
    requires Conserved(s) && LockDiscipline(s) && !step.IsClient() && Next(s, step, s2)
    ensures Conserved(s2) && Partial(s2) == Partial(s)
  {
    hide Ring.Contents, IsCapacity;
    assert s2.clients == s.clients && s2.records == s.records;
    if step.WTake? {
      assert s.file + s2.worker.chunk + s2.ring.Contents() == s.file + (s2.worker.chunk + s2.ring.Contents());
    }
  }

  lemma CWriteKeepsConserved(s: State, step: Step, s2: State)
    requires Conserved(s) && LockDiscipline(s) && step.CWrite? && Next(s, step, s2)
    ensures Conserved(s2)
  {
    hide Ring.Contents, IsCapacity, Concat;
    var piece := s.clients[step.t].todo[0];
    assert s.clients[step.t].HoldsLock();
    assert s2.ring.Contents() == s.ring.Contents() + piece;
    assert Partial(s2) == Partial(s) + piece;
    assert s2.enqueued == Concat(s2.records) + (Partial(s) + piece);
    assert s2.file + s2.worker.InFlight() + s2.ring.Contents()
        == (s.file + s.worker.InFlight() + s.ring.Contents()) + piece;
  }

  lemma EndRecordKeepsConserved(s: State, step: Step, s2: State)
    requires Conserved(s) && LockDiscipline(s) && step.EndRecord? && Next(s, step, s2)
    ensures Conserved(s2)
  {
    hide Ring.Contents, IsCapacity, Concat, Ring.Valid;
    assert s.clients[step.t].HoldsLock();
    ConcatAppend(s.records, s.clients[step.t].done);
    assert s2.enqueued == Concat(s2.records) + [];
  }

  lemma OtherKeepsConserved(s: State, step: Step, s2: State)
    requires Conserved(s) && LockDiscipline(s) && Next(s, step, s2)
    requires step.IsClient() && !step.CWrite? && !step.EndRecord?
    ensures Conserved(s2)
  {
    hide Ring.Contents, IsCapacity, Concat, Ring.Valid;
    assert s2.ring == s.ring && s2.file == s.file && s2.worker == s.worker && s2.records == s.records;
    assert s.clients[step.t].HoldsLock() <==> s.holder == Client(step.t);
    assert s.holder.Client? && s.holder.t != step.t ==> s2.clients[s.holder.t] == s.clients[s.holder.t];
    assert Partial(s2) == Partial(s);
  }

  lemma ClientKeepsConserved(s: State, step: Step, s2: State)
    requires Conserved(s) && LockDiscipline(s) && step.IsClient() && Next(s, step, s2)
    ensures Conserved(s2)
  {
    hide Conserved, LockDiscipline, Next;
    if step.CWrite? {
      CWriteKeepsConserved(s, step, s2);
    } else if step.EndRecord? {
      EndRecordKeepsConserved(s, step, s2);
    } else {
      OtherKeepsConserved(s, step, s2);
    }
  }

  lemma WorkerKeepsLockDiscipline(s: State, step: Step, s2: State)
    requires LockDiscipline(s) && !step.IsClient() && Next(s, step, s2)
    ensures LockDiscipline(s2)
  {
    hide Ring.Contents, Took, Ring.Valid;
    assert s2.clients == s.clients;
    assert s2.holder != s.holder ==> s.holder == Worker || s2.holder == Worker;
  }

  lemma ClientKeepsLockDiscipline(s: State, step: Step, s2: State)
    requires LockDiscipline(s) && step.IsClient() && Next(s, step, s2)
    ensures LockDiscipline(s2)
  {
    LockMoves(s, step, s2);
    hide Next;
  }

  /** A client's step takes the free lock, gives it up, or leaves it alone. */
  lemma LockMoves(s: State, step: Step, s2: State)
    requires step.IsClient() && Next(s, step, s2)
    ensures step.t < |s.clients| == |s2.clients| && s2.clients == s.clients[step.t := s2.clients[step.t]]
    ensures s2.worker == s.worker
    ensures var held, holds := s.clients[step.t].HoldsLock(), s2.clients[step.t].HoldsLock();
            && (held == holds ==> s2.holder == s.holder)
            && (!held && holds ==> s.holder == Nobody && s2.holder == Client(step.t))
            && (held && !holds ==> s2.holder == Nobody)
  {
    hide Ring.Contents, Wrote, Ring.Valid;
  }

  lemma WorkerKeepsNoLostWakeup(s: State, step: Step, s2: State)
    requires Conserved(s) && NoLostWakeup(s) && !step.IsClient() && Next(s, step, s2)
    ensures s2.ring.Valid() && NoLostWakeup(s2)
  {
  }

  lemma ClientKeepsNoLostWakeup(s: State, step: Step, s2: State)
    requires Conserved(s) && NoLostWakeup(s) && step.IsClient() && Next(s, step, s2)
    ensures s2.ring.Valid() && NoLostWakeup(s2)
  {
    assert forall t :: 0 <= t < |s.clients| && t != step.t ==> s2.clients[t] == s.clients[t];
    if step.BeginFree? || step.EndFree? || step.ClientRelease? || step.Join? {
      assert !s.clients[step.t].WillSignal();
    } else {
      assert s2.sem > 0 || s2.clients[step.t].WillSignal();
    }
  }

  lemma WorkerKeepsReferences(s: State, step: Step, s2: State)
    requires References(s) && LockDiscipline(s) && !step.IsClient() && Next(s, step, s2)
    ensures References(s2)
  {
    assert OwnerHolds(s2) == OwnerHolds(s);
  }

  lemma CallsKeepReferences(s: State, step: Step, s2: State)
    requires References(s) && LockDiscipline(s) && step.IsClient() && Next(s, step, s2)
    requires !(step.BeginFree? || step.EndFree? || step.ClientRelease?)
    ensures References(s2)
  {
    if s.freer.Some? {
      assert false;
    }
    assert s2.freer == None;
  }

  lemma FreeKeepsReferences(s: State, step: Step, s2: State)
    requires References(s) && LockDiscipline(s) && Next(s, step, s2)
    requires step.BeginFree? || step.EndFree? || step.ClientRelease?
    ensures References(s2)
  {
    assert s2.freer == Some(step.t);
  }

  lemma WorkerKeepsBounds(s: State, step: Step, s2: State)
    requires s.ring.Valid() && Shutdown(s) && Bounded(s) && !step.IsClient() && Next(s, step, s2)
    ensures Shutdown(s2) && s2.ring.Valid() && Bounded(s2)
  {
    hide Ring.Contents;
  }

  lemma ClientKeepsBounds(s: State, step: Step, s2: State)
    requires s.ring.Valid() && Shutdown(s) && Bounded(s) && step.IsClient() && Next(s, step, s2)
    ensures Shutdown(s2) && s2.ring.Valid() && Bounded(s2)
  {
    hide Ring.Contents, IsCapacity;
    if step.CWrite? {
      var piece := s.clients[step.t].todo[0];
      var need := |s.ring.Contents()| + |piece| + 1;
      if |piece| >= |s.ring.cells| - |s.ring.Contents()| {
        if need > |s.ring.cells| {
          GrownFits(|s.ring.cells|, need);
        }
      }
    } else {
      assert s2.ring == s.ring && s2.peak == s.peak;
    }
  }

  /** A grown capacity stays below twice the need it was grown for. */
  lemma {:induction false} GrownFits(cur: nat, need: nat)
    requires 0 < cur < need
    ensures GrownCapacity(cur, need) < 2 * need
    decreases need - cur
  {
    if 2 * cur < need {
      GrownFits(2 * cur, need);
    }
  }

  /** Every step of every thread keeps the invariant. */
  lemma StepKeepsInv(s: State, step: Step, s2: State)
    requires Inv(s) && Next(s, step, s2)
    ensures Inv(s2)
  {
    hide Next, LockDiscipline, NoLostWakeup, References, Shutdown, Bounded;
    if !step.IsClient() {
      WorkerKeepsConserved(s, step, s2);
      WorkerKeepsLockDiscipline(s, step, s2);
      WorkerKeepsBounds(s, step, s2);
      WorkerKeepsReferences(s, step, s2);
      WorkerKeepsNoLostWakeup(s, step, s2);
    } else {
      ClientKeepsConserved(s, step, s2);
      ClientKeepsLockDiscipline(s, step, s2);
      ClientKeepsBounds(s, step, s2);
      ClientKeepsNoLostWakeup(s, step, s2);
      if step.BeginFree? || step.EndFree? || step.ClientRelease? {
        FreeKeepsReferences(s, step, s2);
      } else {
        CallsKeepReferences(s, step, s2);
      }
    }
  }

  /** Every state of every run satisfies the invariant. */
  lemma {:induction false} RunsKeepInv(run: seq<State>, steps: seq<Step>, i: nat)
    requires IsRun(run, steps) && Init(run[0]) && i < |run|
    ensures Inv(run[i])
  {
    hide Inv, Init, Next;
    if i == 0 {
      InitInv(run[0]);
    } else {
      RunsKeepInv(run, steps, i - 1);
      StepKeepsInv(run[i - 1], steps[i - 1], run[i]);
    }
  }
}
