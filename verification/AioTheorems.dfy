/** What the runs of the asynchronous writer guarantee to its users. */
module AioTheorems {
  import opened Bytes
  import opened AioRing
  import opened AioProtocol

  // ----- order and completeness of the file -----

  ghost predicate InSection(s: State) {
    s.holder.Client? && s.holder.t < |s.clients| && s.clients[s.holder.t].InRecord?
  }

  /** All the bytes of the locked section in progress, written or still to come. */
  ghost function WholeRecord(s: State): seq<byte> {
    if InSection(s) then Partial(s) + Concat(s.clients[s.holder.t].todo) else []
  }

  /** The writes of every locked section begun, in the order in which the sections took the lock. */
  function Begins(steps: seq<Step>): seq<seq<seq<byte>>> {
    if steps == [] then []
    else
      var last := steps[|steps| - 1];
      Begins(steps[..|steps| - 1]) + if last.BeginRecord? then [last.pieces] else []
  }

  /** The sections' bytes one behind the other. */
  function Sections(begins: seq<seq<seq<byte>>>): seq<byte> {
    if begins == [] then [] else Sections(begins[..|begins| - 1]) + Concat(begins[|begins| - 1])
  }

  /** Every byte enqueued is in the file: none queued, none in flight, no section in progress. */
  ghost predicate AllInFile(s: State) {
    s.ring.Valid() && s.ring.Contents() == [] && !s.worker.Writing? && !InSection(s)
  }

  lemma SectionFrame(s: State, step: Step, s2: State)
    requires LockDiscipline(s) && Next(s, step, s2)
    requires !(step.BeginRecord? || step.CWrite? || step.EndRecord?)
    ensures InSection(s2) == InSection(s) && WholeRecord(s2) == WholeRecord(s) && s2.records == s.records
  {
    if !step.IsClient() {
      assert s2.clients == s.clients;
    }
  }

  lemma WriteFrame(s: State, step: Step, s2: State)
    requires LockDiscipline(s) && Next(s, step, s2) && step.CWrite?
    ensures InSection(s2) && InSection(s) && WholeRecord(s2) == WholeRecord(s) && s2.records == s.records
  {
    var pc := s.clients[step.t];
    assert Concat(pc.todo) == pc.todo[0] + Concat(pc.todo[1..]);
  }

  lemma BeginFrame(s: State, step: Step, s2: State)
    requires LockDiscipline(s) && Next(s, step, s2) && step.BeginRecord?
    ensures WholeRecord(s) == [] && WholeRecord(s2) == Concat(step.pieces) && s2.records == s.records
  {
    hide Ring.Contents, Concat;
    assert [] + Concat(step.pieces) == Concat(step.pieces);
  }

  lemma EndFrame(s: State, step: Step, s2: State)
    requires LockDiscipline(s) && Next(s, step, s2) && step.EndRecord?
    ensures Concat(s2.records) == Concat(s.records) + WholeRecord(s) && WholeRecord(s2) == []
  {
    hide Ring.Contents;
    assert s.clients[step.t].HoldsLock();
    ConcatAppend(s.records, s.clients[step.t].done);
    assert WholeRecord(s) == s.clients[step.t].done + [];
  }

  lemma SectionsKept(s: State, step: Step, s2: State)
    requires LockDiscipline(s) && Next(s, step, s2) && !step.BeginRecord?
    ensures Concat(s2.records) + WholeRecord(s2) == Concat(s.records) + WholeRecord(s)
  {
    hide Next, LockDiscipline, WholeRecord, InSection, Concat;
    if step.EndRecord? {
      EndFrame(s, step, s2);
    } else if step.CWrite? {
      WriteFrame(s, step, s2);
    } else {
      SectionFrame(s, step, s2);
    }
  }

  lemma SectionsStep(s: State, step: Step, s2: State, begins: seq<seq<seq<byte>>>)
    requires LockDiscipline(s) && Next(s, step, s2) && Concat(s.records) + WholeRecord(s) == Sections(begins)
    ensures Concat(s2.records) + WholeRecord(s2) == Sections(begins + if step.BeginRecord? then [step.pieces] else [])
  {
    hide Next, LockDiscipline, WholeRecord, InSection, Concat;
    if step.BeginRecord? {
      BeginFrame(s, step, s2);
      assert (begins + [step.pieces])[..|begins|] == begins;
    } else {
      assert begins + [] == begins;
      SectionsKept(s, step, s2);
    }
  }

  lemma {:induction false} RunSections(run: seq<State>, steps: seq<Step>, i: nat)
    requires IsRun(run, steps) && Init(run[0]) && i < |run|
    ensures Concat(run[i].records) + WholeRecord(run[i]) == Sections(Begins(steps[..i]))
  {
    hide Inv, Next, Concat, Sections;
    if i == 0 {
      NothingBegun(run[0]);
    } else {
      hide Init;
      RunSections(run, steps, i - 1);
      RunsKeepInv(run, steps, i - 1);
      assert LockDiscipline(run[i - 1]) by { InvHasLock(run[i - 1]); }
      SectionsStep(run[i - 1], steps[i - 1], run[i], Begins(steps[..i - 1]));
      assert steps[..i][..i - 1] == steps[..i - 1];
    }
  }

  lemma NothingBegun(s: State)
    requires Init(s)
    ensures Concat(s.records) + WholeRecord(s) == Sections([])
  {
  }

  lemma InvHasLock(s: State)
    requires Inv(s)
    ensures LockDiscipline(s)
  {
  }

  lemma FileInSections(s: State)
    requires Inv(s)
    ensures s.file <= s.enqueued <= Concat(s.records) + WholeRecord(s)
    ensures !InSection(s) ==> s.enqueued == Concat(s.records) + WholeRecord(s)
    ensures AllInFile(s) ==> s.file == Concat(s.records) + WholeRecord(s)
  {
    hide Ring.Contents, Concat;
    assert Partial(s) <= WholeRecord(s);
    assert s.file <= s.enqueued;
    if AllInFile(s) {
      assert s.file + [] + [] == s.file;
    }
  }

  /**
    File and history of what was enqueued are prefixes of the sections begun, whole and in lock order:
    the history is all of them outside of sections, the file once nothing is underway.
  */
  lemma FileIsPrefixOfSections(run: seq<State>, steps: seq<Step>, i: nat)
    requires IsRun(run, steps) && Init(run[0]) && i < |run|
    ensures run[i].file <= run[i].enqueued <= Sections(Begins(steps[..i]))
    ensures !InSection(run[i]) ==> run[i].enqueued == Sections(Begins(steps[..i]))
    ensures AllInFile(run[i]) ==> run[i].file == Sections(Begins(steps[..i]))
  {
    hide Inv, Next, Init, Concat, Sections, Begins, AllInFile;
    RunsKeepInv(run, steps, i);
    RunSections(run, steps, i);
    FileInSections(run[i]);
  }

  lemma {:induction false} BeginsSoFar(steps: seq<Step>, i: nat)
    requires i <= |steps|
    ensures Begins(steps[..i]) <= Begins(steps)
    decreases |steps|
  {
    if i == |steps| {
      assert steps[..i] == steps;
    } else {
      BeginsSoFar(steps[..|steps| - 1], i);
      assert steps[..|steps| - 1][..i] == steps[..i];
    }
  }

  lemma ExitLeavesNothing(s: State, s2: State)
    requires Inv(s) && Next(s, WExit, s2)
    ensures AllInFile(s2)
  {
    hide Ring.Contents;
  }

  lemma BoundedState(s: State)
    requires Inv(s)
    ensures s.ring.readPos < |s.ring.cells| && s.ring.writePos < |s.ring.cells|
    ensures |s.ring.Contents()| < |s.ring.cells| <= MAX_CAPACITY && IsCapacity(|s.ring.cells|)
    ensures |s.ring.cells| == ASYNC_BUFSIZE || |s.ring.cells| < 2 * (s.peak + 1)
  {
    NeverFull(s.ring);
  }

  ghost predicate Attained(run: seq<State>, steps: seq<Step>, i: nat, n: nat)
    requires IsRun(run, steps) && i < |run|
  {
    exists j :: 0 <= j <= i && run[j].ring.Valid() && |run[j].ring.Contents()| == n
  }

  lemma PeakStep(s: State, step: Step, s2: State)
    requires Inv(s) && Next(s, step, s2)
    ensures s2.ring.Valid() && (s2.peak == s.peak || s2.peak == |s2.ring.Contents()|)
  {
    hide Ring.Contents, References, NoLostWakeup, LockDiscipline, Partial;
    StepKeepsInv(s, step, s2);
  }

  /** The history variable peak is the length of some queue there has been. */
  lemma {:induction false} PeakIsAttained(run: seq<State>, steps: seq<Step>, i: nat)
    requires IsRun(run, steps) && Init(run[0]) && i < |run|
    ensures Attained(run, steps, i, run[i].peak)
  {
    hide Inv, Next;
    if i == 0 {
      assert run[0].ring.Valid() && |run[0].ring.Contents()| == run[0].peak;
    } else {
      hide Init;
      PeakIsAttained(run, steps, i - 1);
      RunsKeepInv(run, steps, i - 1);
      PeakStep(run[i - 1], steps[i - 1], run[i]);
    }
  }

  /** The ring never fills, and its allocation follows the longest queue there has been. */
  lemma RingStaysBounded(run: seq<State>, steps: seq<Step>, i: nat)
    requires IsRun(run, steps) && Init(run[0]) && i < |run|
    ensures var r := run[i].ring;
            && r.Valid() && r.readPos < |r.cells| && r.writePos < |r.cells|
            && |r.Contents()| < |r.cells| <= MAX_CAPACITY
            && IsCapacity(|r.cells|)
            && (|r.cells| == ASYNC_BUFSIZE || exists n: nat :: Attained(run, steps, i, n) && |r.cells| < 2 * (n + 1))
  {
    hide Init, Next, Attained;
    RunsKeepInv(run, steps, i);
    BoundedState(run[i]);
    PeakIsAttained(run, steps, i);
  }

  // ----- wake-ups -----

  /** With the lock free, a sleeping worker that has work has been or is about to be signalled. */
  lemma SleepingWorkerIsSignalled(run: seq<State>, steps: seq<Step>, i: nat)
    requires IsRun(run, steps) && Init(run[0]) && i < |run| && run[i].ring.Valid()
    requires run[i].holder == Nobody && run[i].worker == Waiting
    requires run[i].ring.Contents() != [] || run[i].finish != RUNNING
    ensures run[i].sem > 0 || exists t :: 0 <= t < |run[i].clients| && run[i].clients[t].Signalling?
  {
    hide Init, Next;
    RunsKeepInv(run, steps, i);
    var s := run[i];
    if s.sem == 0 {
      var t :| 0 <= t < |s.clients| && s.clients[t].WillSignal();
      assert !s.clients[t].HoldsLock();
      assert s.clients[t].Signalling?;
    }
  }

  // ----- the two owners -----

  /** The steps that read or write the shared object; the others only use thread-local data. */
  ghost predicate Touches(s: State, step: Step) {
    match step
    case WRelease => s.worker.Releasing? && s.worker.doFree
    case ClientRelease(t) => t < |s.clients| && s.clients[t].FreeReleasing? && s.clients[t].doFree
    case Join(_) => false
    case _ => true
  }

  /** The others change nothing but program counters. */
  lemma OthersAreLocal(s: State, step: Step, s2: State)
    requires Next(s, step, s2) && !Touches(s, step)
    ensures s2 == s.(worker := s2.worker, clients := s2.clients)
  {
  }

  lemma StepUsesLiveObject(s: State, step: Step, s2: State)
    requires Inv(s) && Next(s, step, s2)
    ensures Touches(s, step) ==> s.freed == 0
    ensures s.freed <= s2.freed <= 1
    ensures s2.freed == 1 ==> s2.worker.Gone() && s2.freer.Some?
  {
    hide Ring.Contents, NoLostWakeup, Bounded, Partial;
    StepKeepsInv(s, step, s2);
    if step.IsClient() && s.freed == 1 {
      assert s.refcount == 0 && s.freer.Some?;
    }
  }

  /** No step uses the object after it has been released, and it is released at most once. */
  lemma NoUseAfterFree(run: seq<State>, steps: seq<Step>, i: nat)
    requires IsRun(run, steps) && Init(run[0]) && i < |steps|
    ensures Touches(run[i], steps[i]) ==> run[i].freed == 0
    ensures run[i].freed <= run[i + 1].freed <= 1
    ensures run[i + 1].freed == 1 ==> run[i + 1].worker.Gone() && run[i + 1].freer.Some?
  {
    hide Inv, Init, Touches;
    RunsKeepInv(run, steps, i);
    StepUsesLiveObject(run[i], steps[i], run[i + 1]);
  }

  /** When the worker has exited and aio_free has returned, the object has been released. */
  lemma ReleasedInTheEnd(run: seq<State>, steps: seq<Step>, i: nat)
    requires IsRun(run, steps) && Init(run[0]) && i < |run| && run[i].worker == Exited && run[i].freer.Some?
    ensures run[i].freer.value < |run[i].clients| && (run[i].clients[run[i].freer.value] == Idle ==> run[i].freed == 1)
  {
    hide Init, Next;
    RunsKeepInv(run, steps, i);
  }

  /** The worker leaves only when everything enqueued is in the file, closing it exactly for CLOSE. */
  lemma WorkerExitsDrained(run: seq<State>, steps: seq<Step>, i: nat)
    requires IsRun(run, steps) && Init(run[0]) && i < |steps| && steps[i] == WExit
    ensures run[i].finish != RUNNING && run[i + 1].ring.Valid() && run[i + 1].ring.Contents() == []
    ensures run[i + 1].file == run[i + 1].enqueued && (run[i + 1].closed <==> run[i].finish == CLOSE)
  {
    hide Init;
    RunsKeepInv(run, steps, i);
    assert Next(run[i], steps[i], run[i + 1]);
  }

  lemma StepExtendsFile(s: State, step: Step, s2: State)
    requires Inv(s) && Next(s, step, s2)
    ensures s2.closed != s.closed ==> step == WExit && s.finish == CLOSE
    ensures s.worker.Gone() ==> s2.worker.Gone() && s2.file == s.file && s2.closed == s.closed
    ensures s.file <= s2.file
  {
    hide Ring.Contents, References, NoLostWakeup, Bounded, LockDiscipline, Partial;
  }

  /** What is in the file stays there; once the worker has left nothing is written or closed any more. */
  lemma {:induction false} ClosedFileIsFinal(run: seq<State>, steps: seq<Step>, i: nat, j: nat)
    requires IsRun(run, steps) && Init(run[0]) && i <= j < |run|
    ensures run[i].file <= run[j].file
    ensures run[i].worker.Gone() ==>
              run[j].worker.Gone() && run[j].file == run[i].file && run[j].closed == run[i].closed
    ensures run[j].closed && !run[i].closed ==> exists k :: i <= k < j && steps[k] == WExit && run[k].finish == CLOSE
    decreases j
  {
    hide Inv, Init, Next;
    if i < j {
      ClosedFileIsFinal(run, steps, i, j - 1);
      RunsKeepInv(run, steps, j - 1);
      StepExtendsFile(run[j - 1], steps[j - 1], run[j]);
    }
  }

  // ----- shutting down -----

  function WorkerWeight(pc: WorkerPc): nat {
    match pc
    case Writing(_) => 4
    case Locking => 3
    case Checking => 2
    case Releasing(_) => 1
    case _ => 0
  }

  function ClientWeight(pc: ClientPc): nat {
    match pc
    case Idle => 0
    case InRecord(_, todo) => 7 + |todo| + 4 * |Concat(todo)|
    case InClose => 7
    case InWait => 7
    case Signalling(_) => 6
    case Joining => 1
    case InFree => 2
    case FreeReleasing(_) => 1
  }

  function ClientsWeight(pcs: seq<ClientPc>): nat {
    if pcs == [] then 0 else ClientWeight(pcs[0]) + ClientsWeight(pcs[1..])
  }

  lemma {:induction false} ClientsWeightUpdate(pcs: seq<ClientPc>, t: nat, pc: ClientPc)
    requires t < |pcs|
    ensures ClientsWeight(pcs[t := pc]) == ClientsWeight(pcs) - ClientWeight(pcs[t]) + ClientWeight(pc)
  {
    if t == 0 {
      assert pcs[t := pc][1..] == pcs[1..];
    } else {
      ClientsWeightUpdate(pcs[1..], t - 1, pc);
      assert pcs[t := pc][1..] == pcs[1..][t - 1 := pc];
    }
  }

  /** How many more steps can follow before some thread has to make a new call. */
  ghost function StepsLeft(s: State): nat
    requires s.ring.Valid()
  {
    4 * |s.ring.Contents()| + 4 * s.sem + WorkerWeight(s.worker) + ClientsWeight(s.clients)
  }

  lemma CWriteUsesBudget(s: State, step: Step, s2: State)
    requires Next(s, step, s2) && step.CWrite? && s2.ring.Valid()
    ensures StepsLeft(s2) < StepsLeft(s)
  {
    hide Ring.Contents, ClientsWeight, Ring.Valid;
    var todo := s.clients[step.t].todo;
    assert Concat(todo) == todo[0] + Concat(todo[1..]);
    ClientsWeightUpdate(s.clients, step.t, s2.clients[step.t]);
  }

  lemma ClientUsesBudget(s: State, step: Step, s2: State)
    requires Next(s, step, s2) && step.IsClient() && !step.IsBegin() && !step.CWrite? && s2.ring.Valid()
    ensures StepsLeft(s2) < StepsLeft(s)
  {
    hide Ring.Contents, ClientsWeight, Ring.Valid, Concat;
    ClientsWeightUpdate(s.clients, step.t, s2.clients[step.t]);
    assert s2.clients == s.clients[step.t := s2.clients[step.t]] && s2.ring == s.ring && s2.worker == s.worker;
  }

  lemma WorkerUsesBudget(s: State, step: Step, s2: State)
    requires Next(s, step, s2) && !step.IsClient() && s2.ring.Valid()
    ensures StepsLeft(s2) < StepsLeft(s)
  {
    hide Ring.Contents, ClientsWeight, Concat;
    if step.WTake? {
      assert |s.ring.Contents()| == |s2.worker.chunk| + |s2.ring.Contents()|;
    }
  }

  /** Every step that does not begin a call uses up some of the budget, whatever the interleaving. */
  lemma StepUsesBudget(s: State, step: Step, s2: State)
    requires Inv(s) && Next(s, step, s2) && !step.IsBegin()
    ensures s2.ring.Valid() && StepsLeft(s2) < StepsLeft(s)
  {
    StepKeepsInv(s, step, s2);
    assert s2.ring.Valid();
    hide Inv, Next, StepsLeft;
    if step.CWrite? {
      CWriteUsesBudget(s, step, s2);
    } else if step.IsClient() {
      ClientUsesBudget(s, step, s2);
    } else {
      WorkerUsesBudget(s, step, s2);
    }
  }

  /** So without new calls every run is finite. */
  lemma {:induction false} RunWithoutCallsIsBounded(run: seq<State>, steps: seq<Step>, i: nat)
    requires IsRun(run, steps) && Inv(run[0]) && i <= |steps|
    requires forall j :: 0 <= j < |steps| ==> !steps[j].IsBegin()
    ensures Inv(run[i]) && i + StepsLeft(run[i]) <= StepsLeft(run[0])
  {
    hide Inv, Next, StepsLeft;
    if i > 0 {
      RunWithoutCallsIsBounded(run, steps, i - 1);
      StepKeepsInv(run[i - 1], steps[i - 1], run[i]);
      StepUsesBudget(run[i - 1], steps[i - 1], run[i]);
    }
  }

  ghost predicate CanStep(s: State) {
    exists step: Step, s2: State :: !step.IsBegin() && Next(s, step, s2)
  }

  lemma TakeIsPossible(r: Ring) returns (chunk: seq<byte>, r2: Ring)
    requires r.Valid()
    ensures Took(r, chunk, r2)
  {
    NeverFull(r);
    var m := Min(|r.Contents()|, ASYNC_LOCAL_BUFSIZE);
    chunk := r.Contents()[..m];
    r2 := Ring(r.cells, Advance(r.readPos, m, |r.cells|), r.writePos);
    TakeChunkContents(r, m, r2);
    assert r.Contents() == r.Contents()[..m] + r.Contents()[m..];
  }

  lemma WriteIsPossible(r: Ring, data: seq<byte>) returns (r2: Ring)
    requires r.Valid() && |r.Contents()| + |data| + 1 <= MAX_CAPACITY
    ensures Wrote(r, data, r2)
  {
    NeverFull(r);
    if |data| < |r.cells| - |r.Contents()| {
      WriteInPlaceContents(r, data);
      r2 := Ring(WrittenCells(r, data), r.readPos, Advance(r.writePos, |data|, |r.cells|));
    } else {
      var queue := r.Contents() + data;
      GrownCapacityBounds(|r.cells|, |queue| + 1);
      var size := GrownCapacity(|r.cells|, |queue| + 1);
      r2 := Ring(seq(size, i => if 0 <= i < |queue| then queue[i] else 0), 0, |queue|);
      assert r2.Contents() == queue;
    }
  }

  /** A run can only come to rest with the worker gone and every call returned. */
  lemma RestIsShutDown(s: State)
    requires Inv(s) && !CanStep(s) && s.finish != RUNNING
    requires forall t :: 0 <= t < |s.clients| ==> !s.clients[t].InRecord?
    ensures s.worker == Exited && forall t :: 0 <= t < |s.clients| ==> s.clients[t] == Idle
  {
    forall t | 0 <= t < |s.clients|
      ensures s.clients[t] == Idle || s.clients[t] == Joining
    {
      if !(s.clients[t].Idle? || s.clients[t].Joining?) {
        ClientCanStep(s, t);
      }
    }
    if s.worker != Exited {
      WorkerCanStep(s);
    }
    forall t | 0 <= t < |s.clients|
      ensures s.clients[t] == Idle
    {
      if s.clients[t] == Joining {
        assert Next(s, Join(t), s.(clients := s.clients[t := Idle]));
      }
    }
  }

  lemma ClientCanStep(s: State, t: nat)
    requires Inv(s) && t < |s.clients|
    requires !(s.clients[t].Idle? || s.clients[t].Joining? || s.clients[t].InRecord?)
    ensures CanStep(s)
  {
    hide Ring.Contents, References, NoLostWakeup, Bounded, Partial, Shutdown;
    match s.clients[t]
    case InClose =>
      assert Next(s, EndClose(t), s.(clients := s.clients[t := Signalling(false)], holder := Nobody, finish := CLOSE));
    case InWait =>
      assert Next(s, EndWait(t), s.(clients := s.clients[t := Signalling(true)], holder := Nobody,
                                    finish := if s.finish == RUNNING then EXIT else s.finish));
    case Signalling(join) =>
      assert Next(s, Signal(t), s.(clients := s.clients[t := if join then Joining else Idle], sem := s.sem + 1));
    case InFree =>
      assert Next(s, EndFree(t), s.(clients := s.clients[t := FreeReleasing(s.refcount - 1 == 0)],
                                    holder := Nobody, refcount := s.refcount - 1));
    case FreeReleasing(doFree) =>
      assert Next(s, ClientRelease(t), s.(clients := s.clients[t := Idle],
                                          freed := if doFree then s.freed + 1 else s.freed));
  }

  /** With the lock free, the worker has a step until it exits, unless it waits to be signalled. */
  lemma WorkerCanStep(s: State)
    requires Inv(s) && s.worker != Exited
    requires forall t :: 0 <= t < |s.clients| ==> !s.clients[t].HoldsLock()
    ensures CanStep(s) || (s.worker == Waiting && s.sem == 0)
  {
    hide Ring.Contents, References, Bounded, Partial, Shutdown, NoLostWakeup;
    match s.worker
    case Locking =>
      assert s.holder == Nobody;
      assert Next(s, WLock, s.(worker := Checking, holder := Worker));
    case Checking =>
      if s.ring.Contents() != [] {
        var chunk, r2 := TakeIsPossible(s.ring);
        assert Next(s, WTake, s.(worker := Writing(chunk), ring := r2, holder := Nobody));
      } else if s.finish == RUNNING {
        assert Next(s, WIdle, s.(worker := Waiting, holder := Nobody));
      } else {
        assert Next(s, WExit, s.(worker := Releasing(s.refcount - 1 == 0), holder := Nobody,
                                 refcount := s.refcount - 1, closed := s.closed || s.finish == CLOSE));
      }
    case Waiting =>
      if s.sem > 0 {
        assert Next(s, WWake, s.(worker := Locking, sem := s.sem - 1));
      }
    case Writing(chunk) =>
      assert Next(s, WWrite, s.(worker := Locking, file := s.file + chunk));
    case Releasing(doFree) =>
      assert Next(s, WRelease, s.(worker := Exited, freed := if doFree then s.freed + 1 else s.freed));
  }

  /** A writer in a locked section is never stuck while the queue can grow. */
  lemma RecordCanStep(s: State, t: nat)
    requires Inv(s) && t < |s.clients| && s.clients[t].InRecord?
    requires s.clients[t].todo != [] ==>
               |s.ring.Contents()| + |s.clients[t].todo[0]| + 1 <= MAX_CAPACITY
    ensures CanStep(s)
  {
    var pc := s.clients[t];
    if pc.todo == [] {
      assert Next(s, EndRecord(t), s.(clients := s.clients[t := Signalling(false)], holder := Nobody,
                                      records := s.records + [pc.done]));
    } else {
      var r2 := WriteIsPossible(s.ring, pc.todo[0]);
      assert Next(s, CWrite(t), s.(ring := r2, enqueued := s.enqueued + pc.todo[0],
                                   clients := s.clients[t := InRecord(pc.done + pc.todo[0], pc.todo[1..])],
                                   peak := Max(s.peak, |r2.Contents()|)));
    }
  }

  // ----- who asks for what -----

  ghost predicate CloseAsked(steps: seq<Step>, i: nat) {
    exists k :: 0 <= k < i <= |steps| && steps[k].EndClose?
  }

  ghost predicate ShutdownAsked(steps: seq<Step>, i: nat) {
    exists k :: 0 <= k < i <= |steps| && (steps[k].EndClose? || steps[k].EndWait?)
  }

  /** The worker has left after a call of aio_close. */
  ghost predicate ClosedOnRequest(steps: seq<Step>, i: nat) {
    exists j :: 0 <= j < i <= |steps| && steps[j] == WExit && CloseAsked(steps, j)
  }

  lemma FinishStep(s: State, step: Step, s2: State)
    requires Next(s, step, s2)
    ensures s2.finish == CLOSE <==> s.finish == CLOSE || step.EndClose?
    ensures s2.finish != RUNNING <==> s.finish != RUNNING || step.EndClose? || step.EndWait?
    ensures s2.closed <==> s.closed || (step == WExit && s.finish == CLOSE)
  {
  }

  lemma AskedStep(steps: seq<Step>, i: nat)
    requires i < |steps|
    ensures CloseAsked(steps, i + 1) <==> CloseAsked(steps, i) || steps[i].EndClose?
    ensures ShutdownAsked(steps, i + 1) <==> ShutdownAsked(steps, i) || steps[i].EndClose? || steps[i].EndWait?
    ensures ClosedOnRequest(steps, i + 1) <==> ClosedOnRequest(steps, i) || (steps[i] == WExit && CloseAsked(steps, i))
  {
    hide CloseAsked;
    CloseAskedStep(steps, i);
  }

  lemma CloseAskedStep(steps: seq<Step>, i: nat)
    requires i < |steps|
    ensures CloseAsked(steps, i + 1) <==> CloseAsked(steps, i) || steps[i].EndClose?
  {
  }

  lemma NothingAsked(s: State, steps: seq<Step>)
    requires Init(s)
    ensures s.finish == RUNNING && !s.closed
    ensures !CloseAsked(steps, 0) && !ShutdownAsked(steps, 0) && !ClosedOnRequest(steps, 0)
  {
  }

  /**
    The worker is told to leave by aio_close and aio_wait only, and to close the file by aio_close only;
    the file is closed exactly if the worker has left after such a call.
  */
  lemma {:induction false} FinishIffAsked(run: seq<State>, steps: seq<Step>, i: nat)
    requires IsRun(run, steps) && Init(run[0]) && i < |run|
    ensures run[i].finish == CLOSE <==> CloseAsked(steps, i)
    ensures run[i].finish != RUNNING <==> ShutdownAsked(steps, i)
    ensures run[i].closed <==> ClosedOnRequest(steps, i)
  {
    hide Init, Next, CloseAsked, ShutdownAsked, ClosedOnRequest;
    if i == 0 {
      NothingAsked(run[0], steps);
    } else {
      FinishIffAsked(run, steps, i - 1);
      FinishStep(run[i - 1], steps[i - 1], run[i]);
      AskedStep(steps, i - 1);
    }
  }

  /** A thread inside aio_wait, unless the worker has exited. */
  ghost predicate WaitsForWorker(s: State, t: nat) {
    s.worker == Exited || (t < |s.clients| && s.clients[t] in {Signalling(true), Joining})
  }

  lemma WaitStep(s: State, step: Step, s2: State, t: nat)
    requires Next(s, step, s2) && (WaitsForWorker(s, t) || step == EndWait(t))
    ensures WaitsForWorker(s2, t)
  {
    hide Ring.Contents, Ring.Valid, Took, Wrote;
  }

  /** When aio_wait has returned, the worker has exited. */
  lemma {:induction false} WaitReturnsAfterExit(run: seq<State>, steps: seq<Step>, k: nat, i: nat, t: nat)
    requires IsRun(run, steps) && k < i < |run| && steps[k] == EndWait(t)
    ensures t < |run[i].clients| && run[i].clients[t] == Idle ==> run[i].worker == Exited
    ensures WaitsForWorker(run[i], t)
    decreases i
  {
    hide Next;
    if k < i - 1 {
      WaitReturnsAfterExit(run, steps, k, i - 1, t);
    }
    WaitStep(run[i - 1], steps[i - 1], run[i], t);
  }

  /** No other call makes a thread wait for the worker. */
  lemma {:induction false} OnlyWaitJoins(run: seq<State>, steps: seq<Step>, i: nat, t: nat)
    requires IsRun(run, steps) && Init(run[0]) && i < |run|
    requires t < |run[i].clients| && run[i].clients[t] in {Signalling(true), Joining}
    ensures exists k :: 0 <= k < i && steps[k] == EndWait(t)
  {
    if i > 0 {
      hide Init, Next;
      JoinStep(run[i - 1], steps[i - 1], run[i], t);
      if steps[i - 1] != EndWait(t) {
        OnlyWaitJoins(run, steps, i - 1, t);
      }
    }
  }

  lemma JoinStep(s: State, step: Step, s2: State, t: nat)
    requires Next(s, step, s2) && t < |s2.clients| && s2.clients[t] in {Signalling(true), Joining}
    ensures step == EndWait(t) || (t < |s.clients| && s.clients[t] in {Signalling(true), Joining})
  {
    hide Ring.Contents, Ring.Valid;
  }

  // ----- everything comes to rest -----

  /** Shutdown asked for, total is what all sections write, and a gone worker has left nothing behind. */
  ghost predicate Draining(s: State, total: seq<byte>) {
    && Inv(s) && s.finish != RUNNING && Concat(s.records) + WholeRecord(s) == total
    && (s.worker.Gone() ==> s.ring.Contents() == [] && !InSection(s))
  }

  lemma {:induction false} DrainingContinues(run: seq<State>, steps: seq<Step>, i: nat, total: seq<byte>)
    requires IsRun(run, steps) && Draining(run[0], total) && i < |run|
    requires forall j :: 0 <= j < |steps| ==> !steps[j].IsBegin()
    ensures Draining(run[i], total)
    ensures run[0].finish == CLOSE && !run[0].worker.Gone() ==>
              run[i].finish == CLOSE && (run[i].worker.Gone() ==> run[i].closed)
  {
    hide Draining, Next;
    if i > 0 {
      DrainingContinues(run, steps, i - 1, total);
      DrainingStep(run[i - 1], steps[i - 1], run[i], total);
    }
  }

  lemma DrainingStep(s: State, step: Step, s2: State, total: seq<byte>)
    requires Draining(s, total) && Next(s, step, s2) && !step.IsBegin()
    ensures Draining(s2, total)
    ensures s.finish == CLOSE ==> s2.finish == CLOSE
    ensures s.finish == CLOSE && s2.worker.Gone() ==> s.worker.Gone() || s2.closed
    ensures s.worker.Gone() ==> s2.closed == s.closed
  {
    StepKeepsInv(s, step, s2);
    InvHasLock(s);
    SectionsKept(s, step, s2);
    hide Inv, WholeRecord, LockDiscipline;
    FinishStep(s, step, s2);
    WorkerLeaves(s, step, s2);
  }

  lemma WorkerLeaves(s: State, step: Step, s2: State)
    requires LockDiscipline(s) && Next(s, step, s2) && !step.IsBegin()
    requires s.worker.Gone() ==> s.ring.Contents() == [] && !InSection(s)
    ensures s2.worker.Gone() ==> s2.ring.Valid() && s2.ring.Contents() == [] && !InSection(s2)
    ensures s2.worker.Gone() && !s.worker.Gone() ==> step == WExit
    ensures s.worker.Gone() ==> s2.worker.Gone()
  {
    hide Ring.Contents;
    if step.IsClient() && s.worker.Gone() {
      assert !s.clients[step.t].InRecord?;
    }
  }

  lemma RestIsDrained(s: State, total: seq<byte>)
    requires Draining(s, total) && !CanStep(s) && forall t :: 0 <= t < |s.clients| ==> !s.clients[t].InRecord?
    ensures s.worker == Exited && s.file == total && forall t :: 0 <= t < |s.clients| ==> s.clients[t] == Idle
  {
    hide CanStep, WholeRecord;
    RestIsShutDown(s);
    FileInSections(s);
  }

  /**
    After aio_close or aio_wait, with no further calls: every run comes to rest within StepsLeft steps,
    unless a section cannot grow the queue, and then the worker has gone, every call has returned, all
    that was ever logged is in the file, and the file is closed if aio_close was called.
  */
  lemma ShutdownCompletes(run: seq<State>, steps: seq<Step>, i: nat)
    requires IsRun(run, steps) && Init(run[0]) && i < |run| && ShutdownAsked(steps, i) && !run[i].worker.Gone()
    requires forall j :: i <= j < |steps| ==> !steps[j].IsBegin()
    ensures run[i].ring.Valid() && |steps| - i <= StepsLeft(run[i])
    ensures var last := run[|steps|];
            !CanStep(last) && (forall t :: 0 <= t < |last.clients| ==> !last.clients[t].InRecord?) ==>
              && last.worker == Exited && last.file == Sections(Begins(steps[..i]))
              && (forall t :: 0 <= t < |last.clients| ==> last.clients[t] == Idle)
              && (CloseAsked(steps, i) ==> last.closed)
  {
    hide Init, Next, Sections, Begins, CanStep, StepsLeft, CloseAsked, ShutdownAsked;
    var total, last := Sections(Begins(steps[..i])), run[|steps|];
    RunsKeepInv(run, steps, i);
    RunSections(run, steps, i);
    FinishIffAsked(run, steps, i);
    var run2, steps2 := run[i..], steps[i..];
    assert IsRun(run2, steps2);
    RunWithoutCallsIsBounded(run2, steps2, |steps2|);
    DrainingContinues(run2, steps2, |steps2|, total);
    if !CanStep(last) && forall t :: 0 <= t < |last.clients| ==> !last.clients[t].InRecord? {
      RestIsDrained(last, total);
    }
  }

  lemma RestIsIdle(s: State)
    requires Inv(s) && !CanStep(s) && s.finish == RUNNING
    requires forall t :: 0 <= t < |s.clients| ==> !s.clients[t].InRecord? && !s.clients[t].Joining?
    ensures s.worker == Waiting && AllInFile(s) && forall t :: 0 <= t < |s.clients| ==> s.clients[t] == Idle
  {
    forall t | 0 <= t < |s.clients|
      ensures s.clients[t] == Idle
    {
      if s.clients[t] != Idle {
        ClientCanStep(s, t);
      }
    }
    WorkerCanStep(s);
  }

  /**
    Before shutdown is asked for, a run that rests outside of sections has all its calls returned, the
    worker waiting, and everything that was logged in the file.
  */
  lemma RestIsWritten(run: seq<State>, steps: seq<Step>, i: nat)
    requires IsRun(run, steps) && Init(run[0]) && i < |run| && !ShutdownAsked(steps, i) && !CanStep(run[i])
    requires forall t :: 0 <= t < |run[i].clients| ==> !run[i].clients[t].InRecord?
    ensures run[i].worker == Waiting && run[i].file == Sections(Begins(steps[..i]))
    ensures forall t :: 0 <= t < |run[i].clients| ==> run[i].clients[t] == Idle
  {
    hide Init, Next, Sections, Begins, CanStep, Inv, AllInFile;
    RunsKeepInv(run, steps, i);
    FinishIffAsked(run, steps, i);
    forall t | 0 <= t < |run[i].clients|
      ensures !run[i].clients[t].Joining?
    {
      if run[i].clients[t].Joining? {
        OnlyWaitJoins(run, steps, i, t);
        assert false;
      }
    }
    RestIsIdle(run[i]);
    FileIsPrefixOfSections(run, steps, i);
  }
}
