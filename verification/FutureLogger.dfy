/**
  CFutureLogger: a logger that queues messages until the real logger is set. Log first looks at
  the logger without the lock and only then locks and looks again; Set publishes the logger and
  replays the queue under the lock. One step per access to shared data, any number of threads.
*/
module FutureLogger {
  type Message = nat

  datatype Pc =
    | Idle
    | Called(m: Message)       // in Log, before the lock-free load
    | FastPath(m: Message)     // saw a logger without the lock
    | WantLock(m: Message)     // saw none, about to lock
    | Locked(m: Message)       // holds the lock, about to load again
    | SlowPath(m: Message)     // holds the lock and saw a logger
    | LogDone                  // holds the lock, about to unlock
    | WantSet                  // in Set, about to lock
    | SetLocked                // holds the lock, about to publish
    | Replaying(i: nat)        // holds the lock, i queued messages replayed
    | SetDone                  // holds the lock, about to unlock
  {
    predicate HoldsLock() {
      Locked? || SlowPath? || LogDone? || SetLocked? || Replaying? || SetDone?
    }

    predicate InSet() {
      WantSet? || SetLocked? || Replaying? || SetDone?
    }

    /** This thread has taken msg over from its caller and not yet handed it on. */
    predicate Holds(msg: Message) {
      (Called? || FastPath? || WantLock? || Locked? || SlowPath?) && this.m == msg
    }
  }

  datatype Holder = Nobody | Thread(t: nat)

  datatype Delivery = Direct(m: Message) | Replay(m: Message)

  datatype State = State(
    loggerSet: bool, holder: Holder, pending: seq<Message>, threads: seq<Pc>,
    setter: Holder,                  // the thread that has called Set
    delivered: seq<Delivery>,        // what the real logger has received, in order
    logged: multiset<Message>,       // history: messages passed to Log
    queued: seq<Message>)            // history: messages pushed to m_vPending, in order

  datatype Step =
    | CallLog(t: nat, m: Message) | Load(t: nat) | DeliverFast(t: nat) | LockLog(t: nat)
    | Reload(t: nat) | DeliverSlow(t: nat) | UnlockLog(t: nat)
    | CallSet(t: nat) | LockSet(t: nat) | Publish(t: nat) | ReplayOne(t: nat) | Clear(t: nat) | UnlockSet(t: nat)

  ghost predicate Init(s: State) {
    && !s.loggerSet && s.holder == Nobody && s.pending == [] && s.setter == Nobody
    && s.delivered == [] && s.logged == multiset{} && s.queued == []
    && forall t :: 0 <= t < |s.threads| ==> s.threads[t] == Idle
  }

  lemma NewLoggerIsInitial(threads: nat)
    ensures Init(State(false, Nobody, [], seq(threads, _ => Idle), Nobody, [], multiset{}, []))
  {
  }

  ghost predicate Next(s: State, step: Step, s2: State) {
    var t := step.t;
    && t < |s.threads|
    && var pc := s.threads[t];
    match step
    case CallLog(_, m) => pc.Idle? && s2 == s.(threads := s.threads[t := Called(m)], logged := s.logged + multiset{m})
    case Load(_) =>
      && pc.Called?
      && s2 == s.(threads := s.threads[t := if s.loggerSet then FastPath(pc.m) else WantLock(pc.m)])
    case DeliverFast(_) =>
      pc.FastPath? && s2 == s.(threads := s.threads[t := Idle], delivered := s.delivered + [Direct(pc.m)])
    case LockLog(_) =>
      pc.WantLock? && s.holder == Nobody && s2 == s.(threads := s.threads[t := Locked(pc.m)], holder := Thread(t))
    case Reload(_) =>
      && pc.Locked?
      && s2 == if s.loggerSet then s.(threads := s.threads[t := SlowPath(pc.m)])
               else s.(threads := s.threads[t := LogDone], pending := s.pending + [pc.m], queued := s.queued + [pc.m])
    case DeliverSlow(_) =>
      pc.SlowPath? && s2 == s.(threads := s.threads[t := LogDone], delivered := s.delivered + [Direct(pc.m)])
    case UnlockLog(_) => pc.LogDone? && s2 == s.(threads := s.threads[t := Idle], holder := Nobody)
    case CallSet(_) =>
      pc.Idle? && s.setter == Nobody && s2 == s.(threads := s.threads[t := WantSet], setter := Thread(t))
    case LockSet(_) =>
      pc.WantSet? && s.holder == Nobody && s2 == s.(threads := s.threads[t := SetLocked], holder := Thread(t))
    case Publish(_) => pc.SetLocked? && s2 == s.(threads := s.threads[t := Replaying(0)], loggerSet := true)
    case ReplayOne(_) =>
      && pc.Replaying? && pc.i < |s.pending|
      && s2 == s.(threads := s.threads[t := Replaying(pc.i + 1)], delivered := s.delivered + [Replay(s.pending[pc.i])])
    case Clear(_) =>
      pc.Replaying? && pc.i == |s.pending| && s2 == s.(threads := s.threads[t := SetDone], pending := [])
    case UnlockSet(_) => pc.SetDone? && s2 == s.(threads := s.threads[t := Idle], holder := Nobody)
  }

  function One(b: bool): nat {
    if b then 1 else 0
  }

  /** How many threads hold message m. */
  function InHands(pcs: seq<Pc>, m: Message): nat {
    if pcs == [] then 0 else One(pcs[0].Holds(m)) + InHands(pcs[1..], m)
  }

  /** How often the real logger has received m. */
  function Received(ds: seq<Delivery>, m: Message): nat {
    if ds == [] then 0 else Received(ds[..|ds| - 1], m) + One(ds[|ds| - 1].m == m)
  }

  /** The replayed messages, in the order in which the real logger got them. */
  function Replays(ds: seq<Delivery>): seq<Message> {
    if ds == [] then []
    else Replays(ds[..|ds| - 1]) + if ds[|ds| - 1].Replay? then [ds[|ds| - 1].m] else []
  }

  /** The queued messages that have not been replayed yet. */
  ghost function Unreplayed(s: State): seq<Message> {
    if s.holder.Thread? && s.holder.t < |s.threads| && s.threads[s.holder.t].Replaying?
       && s.threads[s.holder.t].i <= |s.pending|
    then s.pending[s.threads[s.holder.t].i..] else s.pending
  }

  ghost predicate LockDiscipline(s: State) {
    && (s.holder.Thread? ==> s.holder.t < |s.threads|)
    && forall t :: 0 <= t < |s.threads| ==>
         && (s.threads[t].HoldsLock() <==> s.holder == Thread(t))
         && (s.threads[t].Replaying? ==> s.threads[t].i <= |s.pending|)
  }

  /** Once the logger is published, only the thread in Set can still find messages queued. */
  ghost predicate HandedOver(s: State) {
    && (forall t :: 0 <= t < |s.threads| ==>
         var pc := s.threads[t];
         && (pc.InSet() ==> s.setter == Thread(t))
         && (pc.WantSet? || pc.SetLocked? ==> !s.loggerSet)
         && (pc.Replaying? || pc.SetDone? || pc.FastPath? || pc.SlowPath? ==> s.loggerSet)
         && (pc.SetDone? || pc.SlowPath? ==> s.pending == []))
    && (s.loggerSet ==> s.setter != Nobody)
    && (s.loggerSet && s.pending != [] ==>
          s.holder.Thread? && s.holder.t < |s.threads| && s.threads[s.holder.t].Replaying?)
  }

  /** m has been received, is queued or is in hand exactly as often as it has been logged. */
  ghost predicate Accounted(s: State, m: Message) {
    Received(s.delivered, m) + multiset(Unreplayed(s))[m] + InHands(s.threads, m) == s.logged[m]
  }

  ghost predicate ExactlyOnce(s: State) {
    forall m :: Accounted(s, m)
  }

  ghost predicate InOrder(s: State) {
    Replays(s.delivered) + Unreplayed(s) == s.queued
  }

  ghost predicate Inv(s: State) {
    LockDiscipline(s) && HandedOver(s) && ExactlyOnce(s) && InOrder(s)
  }

  lemma {:induction false} InHandsUpdate(pcs: seq<Pc>, t: nat, pc: Pc, m: Message)
    requires t < |pcs|
    ensures InHands(pcs[t := pc], m) + One(pcs[t].Holds(m)) == InHands(pcs, m) + One(pc.Holds(m))
  {
    if t == 0 {
      assert pcs[t := pc][1..] == pcs[1..];
    } else {
      InHandsUpdate(pcs[1..], t - 1, pc, m);
      assert pcs[t := pc][1..] == pcs[1..][t - 1 := pc];
    }
  }

  lemma {:induction false} IdleHands(pcs: seq<Pc>, m: Message)
    requires forall t :: 0 <= t < |pcs| ==> pcs[t] == Idle
    ensures InHands(pcs, m) == 0
  {
    if pcs != [] {
      IdleHands(pcs[1..], m);
    }
  }

  lemma DeliverOne(ds: seq<Delivery>, d: Delivery, m: Message)
    ensures Received(ds + [d], m) == Received(ds, m) + One(d.m == m)
    ensures Replays(ds + [d]) == Replays(ds) + if d.Replay? then [d.m] else []
  {
    assert (ds + [d])[..|ds|] == ds;
  }

  lemma KeepsLock(s: State, step: Step, s2: State)
    requires LockDiscipline(s) && Next(s, step, s2)
    ensures LockDiscipline(s2)
  {
  }

  lemma KeepsHandedOver(s: State, step: Step, s2: State)
    requires LockDiscipline(s) && HandedOver(s) && Next(s, step, s2)
    ensures HandedOver(s2)
  {
  }

  /** What a step adds to the deliveries. */
  ghost function Delivered(s: State, step: Step): seq<Delivery>
    requires step.t < |s.threads|
  {
    match s.threads[step.t]
    case FastPath(m) => [Direct(m)]
    case SlowPath(m) => [Direct(m)]
    case Replaying(i) => if i < |s.pending| then [Replay(s.pending[i])] else []
    case _ => []
  }

  /** What a step adds to the queue. */
  ghost function Queued(s: State, step: Step): seq<Message>
    requires step.t < |s.threads|
  {
    if s.threads[step.t].Locked? && !s.loggerSet then [s.threads[step.t].m] else []
  }

  /** The effect of one step on what is still to be replayed: ds is delivered, qs is queued. */
  ghost predicate Flow(unreplayed: seq<Message>, ds: seq<Delivery>, qs: seq<Message>, unreplayed2: seq<Message>) {
    && |ds| + |qs| <= 1
    && if ds != [] && ds[0].Replay? then unreplayed == [ds[0].m] + unreplayed2
       else unreplayed2 == unreplayed + qs
  }

  lemma StepFlow(s: State, step: Step, s2: State)
    requires LockDiscipline(s) && HandedOver(s) && Next(s, step, s2)
    ensures s2.delivered == s.delivered + Delivered(s, step) && s2.queued == s.queued + Queued(s, step)
    ensures Flow(Unreplayed(s), Delivered(s, step), Queued(s, step), Unreplayed(s2))
  {
    if step.ReplayOne? || step.Publish? || step.Clear? {
      assert s.holder == Thread(step.t);
    } else {
      assert !s.threads[step.t].Replaying? && !s2.threads[step.t].Replaying?;
    }
  }

  lemma FlowKeepsOrder(ds: seq<Delivery>, u: seq<Message>, ds1: seq<Delivery>, q1: seq<Message>, u2: seq<Message>)
    requires Flow(u, ds1, q1, u2)
    ensures Replays(ds + ds1) + u2 == Replays(ds) + u + q1
  {
    if ds1 != [] {
      DeliverOne(ds, ds1[0], 0);
      assert ds + ds1 == ds + [ds1[0]];
    } else {
      assert ds + ds1 == ds;
    }
  }

  lemma FlowKeepsCount(ds: seq<Delivery>, u: seq<Message>, ds1: seq<Delivery>, q1: seq<Message>, u2: seq<Message>,
                       m: Message)
    requires Flow(u, ds1, q1, u2)
    ensures Received(ds + ds1, m) + multiset(u2)[m]
         == Received(ds, m) + multiset(u)[m] + One(ds1 == [Direct(m)]) + One(q1 == [m])
  {
    if ds1 != [] {
      DeliverOne(ds, ds1[0], m);
      assert ds + ds1 == ds + [ds1[0]];
    } else {
      assert ds + ds1 == ds;
    }
  }

  /** A thread lets go of its message exactly when it hands it on, and takes one on only in CallLog. */
  lemma StepHands(s: State, step: Step, s2: State, m: Message)
    requires Next(s, step, s2)
    ensures InHands(s2.threads, m) + One(Delivered(s, step) == [Direct(m)]) + One(Queued(s, step) == [m])
         == InHands(s.threads, m) + One(step.CallLog? && step.m == m)
    ensures s2.logged[m] == s.logged[m] + One(step.CallLog? && step.m == m)
  {
    InHandsUpdate(s.threads, step.t, s2.threads[step.t], m);
    assert s2.threads == s.threads[step.t := s2.threads[step.t]];
  }

  lemma KeepsOrder(s: State, step: Step, s2: State)
    requires LockDiscipline(s) && HandedOver(s) && InOrder(s) && Next(s, step, s2)
    ensures InOrder(s2)
  {
    StepFlow(s, step, s2);
    FlowKeepsOrder(s.delivered, Unreplayed(s), Delivered(s, step), Queued(s, step), Unreplayed(s2));
  }

  lemma KeepsAccounted(s: State, step: Step, s2: State, m: Message)
    requires LockDiscipline(s) && HandedOver(s) && Accounted(s, m) && Next(s, step, s2)
    ensures Accounted(s2, m)
  {
    StepFlow(s, step, s2);
    StepHands(s, step, s2, m);
    FlowKeepsCount(s.delivered, Unreplayed(s), Delivered(s, step), Queued(s, step), Unreplayed(s2), m);
  }

  lemma StepKeepsInv(s: State, step: Step, s2: State)
    requires Inv(s) && Next(s, step, s2)
    ensures Inv(s2)
  {
    KeepsLock(s, step, s2);
    KeepsHandedOver(s, step, s2);
    KeepsOrder(s, step, s2);
    forall m
      ensures Accounted(s2, m)
    {
      KeepsAccounted(s, step, s2, m);
    }
  }

  ghost predicate IsRun(run: seq<State>, steps: seq<Step>) {
    && |run| == |steps| + 1 && Init(run[0])
    && forall i :: 0 <= i < |steps| ==> Next(run[i], steps[i], run[i + 1])
  }

  lemma {:induction false} RunsKeepInv(run: seq<State>, steps: seq<Step>, i: nat)
    requires IsRun(run, steps) && i < |run|
    ensures Inv(run[i])
  {
    if i == 0 {
      forall m
        ensures Accounted(run[0], m)
      {
        IdleHands(run[0].threads, m);
      }
    } else {
      RunsKeepInv(run, steps, i - 1);
      StepKeepsInv(run[i - 1], steps[i - 1], run[i]);
    }
  }

  /** With the logger set and the lock free nothing is left behind in the queue. */
  lemma NothingStranded(run: seq<State>, steps: seq<Step>, i: nat)
    requires IsRun(run, steps) && i < |run| && run[i].loggerSet && run[i].holder == Nobody
    ensures run[i].pending == [] && Replays(run[i].delivered) == run[i].queued
  {
    hide ExactlyOnce, Next, Init;
    RunsKeepInv(run, steps, i);
  }

  // ----- the histories in terms of the steps -----

  /** The messages handed to Log, in the order of the calls. */
  function Calls(steps: seq<Step>): seq<Message> {
    if steps == [] then []
    else
      var last := steps[|steps| - 1];
      Calls(steps[..|steps| - 1]) + if last.CallLog? then [last.m] else []
  }

  ghost predicate Published(steps: seq<Step>, i: nat) {
    exists k :: 0 <= k < i <= |steps| && steps[k].Publish?
  }

  lemma HistoryStep(s: State, step: Step, s2: State)
    requires Next(s, step, s2)
    ensures s2.logged == s.logged + multiset(if step.CallLog? then [step.m] else [])
    ensures s2.loggerSet <==> s.loggerSet || step.Publish?
  {
  }

  /** What is logged is what Log was called with, and the logger is set by Set alone. */
  lemma {:induction false} RunHistory(run: seq<State>, steps: seq<Step>, i: nat)
    requires IsRun(run, steps) && i < |run|
    ensures run[i].logged == multiset(Calls(steps[..i]))
    ensures run[i].loggerSet <==> Published(steps, i)
  {
    hide Next;
    if i > 0 {
      RunHistory(run, steps, i - 1);
      HistoryStep(run[i - 1], steps[i - 1], run[i]);
      assert steps[..i][..i - 1] == steps[..i - 1];
      PublishedStep(steps, i - 1);
    }
  }

  lemma PublishedStep(steps: seq<Step>, i: nat)
    requires i < |steps|
    ensures Published(steps, i + 1) <==> Published(steps, i) || steps[i].Publish?
  {
  }

  /** Nothing is handed to the real logger before there is one. */
  lemma DeliversOnlyWhenSet(run: seq<State>, steps: seq<Step>, i: nat)
    requires IsRun(run, steps) && i < |steps|
    ensures run[i + 1].delivered != run[i].delivered ==> Published(steps, i)
  {
    hide ExactlyOnce, InOrder, Init, Published;
    RunsKeepInv(run, steps, i);
    RunHistory(run, steps, i);
    assert Next(run[i], steps[i], run[i + 1]);
  }

  ghost predicate CanStep(s: State) {
    exists step: Step, s2: State :: !step.CallLog? && !step.CallSet? && Next(s, step, s2)
  }

  /** While a call is in progress some thread has a step. */
  lemma NeverStuck(run: seq<State>, steps: seq<Step>, i: nat)
    requires IsRun(run, steps) && i < |run|
    ensures CanStep(run[i]) || forall t :: 0 <= t < |run[i].threads| ==> run[i].threads[t] == Idle
  {
    hide Next, Init, Inv, CanStep;
    RunsKeepInv(run, steps, i);
    var s := run[i];
    if t :| 0 <= t < |s.threads| && s.threads[t] != Idle {
      InvHasLock(s);
      if s.holder.Thread? {
        HolderCanStep(s, s.holder.t);
      } else {
        ThreadCanStep(s, t);
      }
    }
  }

  lemma InvHasLock(s: State)
    requires Inv(s)
    ensures LockDiscipline(s)
  {
  }

  lemma HolderCanStep(s: State, t: nat)
    requires LockDiscipline(s) && s.holder == Thread(t)
    ensures CanStep(s)
  {
    match s.threads[t]
    case Locked(m) =>
      assert Next(s, Reload(t),
                  if s.loggerSet then s.(threads := s.threads[t := SlowPath(m)])
                  else s.(threads := s.threads[t := LogDone], pending := s.pending + [m], queued := s.queued + [m]));
    case SlowPath(m) =>
      assert Next(s, DeliverSlow(t), s.(threads := s.threads[t := LogDone], delivered := s.delivered + [Direct(m)]));
    case LogDone =>
      assert Next(s, UnlockLog(t), s.(threads := s.threads[t := Idle], holder := Nobody));
    case SetLocked =>
      assert Next(s, Publish(t), s.(threads := s.threads[t := Replaying(0)], loggerSet := true));
    case Replaying(i) =>
      if i < |s.pending| {
        assert Next(s, ReplayOne(t), s.(threads := s.threads[t := Replaying(i + 1)],
                                        delivered := s.delivered + [Replay(s.pending[i])]));
      } else {
        assert Next(s, Clear(t), s.(threads := s.threads[t := SetDone], pending := []));
      }
    case SetDone =>
      assert Next(s, UnlockSet(t), s.(threads := s.threads[t := Idle], holder := Nobody));
  }

  lemma ThreadCanStep(s: State, t: nat)
    requires LockDiscipline(s) && s.holder == Nobody && t < |s.threads| && s.threads[t] != Idle
    ensures CanStep(s)
  {
    assert !s.threads[t].HoldsLock();
    match s.threads[t]
    case Called(m) =>
      assert Next(s, Load(t), s.(threads := s.threads[t := if s.loggerSet then FastPath(m) else WantLock(m)]));
    case FastPath(m) =>
      assert Next(s, DeliverFast(t), s.(threads := s.threads[t := Idle], delivered := s.delivered + [Direct(m)]));
    case WantLock(m) =>
      assert Next(s, LockLog(t), s.(threads := s.threads[t := Locked(m)], holder := Thread(t)));
    case WantSet =>
      assert Next(s, LockSet(t), s.(threads := s.threads[t := SetLocked], holder := Thread(t)));
  }

  /**
    When every call has returned, each message that Log was called with has been delivered, or is queued,
    exactly as often; once the logger is set, all have been delivered.
  */
  lemma DeliveredExactlyOnce(run: seq<State>, steps: seq<Step>, i: nat)
    requires IsRun(run, steps) && i < |run| && forall t :: 0 <= t < |run[i].threads| ==> run[i].threads[t] == Idle
    ensures var logged := multiset(Calls(steps[..i]));
            && (forall m :: Received(run[i].delivered, m) + multiset(run[i].pending)[m] == logged[m])
            && (Published(steps, i) ==> forall m :: Received(run[i].delivered, m) == logged[m])
            && (!Published(steps, i) ==> run[i].delivered == [] && multiset(run[i].pending) == logged)
  {
    hide Next, Init, Published;
    RunsKeepInv(run, steps, i);
    RunHistory(run, steps, i);
    QuietState(run[i]);
    if !Published(steps, i) {
      NothingDelivered(run, steps, i);
      assert forall m :: multiset(run[i].pending)[m] == run[i].logged[m];
    }
  }

  lemma {:induction false} NothingDelivered(run: seq<State>, steps: seq<Step>, i: nat)
    requires IsRun(run, steps) && i < |run| && !run[i].loggerSet
    ensures run[i].delivered == []
  {
    if i > 0 {
      hide Init, Next, Published;
      RunHistory(run, steps, i - 1);
      HistoryStep(run[i - 1], steps[i - 1], run[i]);
      NothingDelivered(run, steps, i - 1);
      DeliversOnlyWhenSet(run, steps, i - 1);
    }
  }

  lemma QuietState(s: State)
    requires Inv(s) && forall t :: 0 <= t < |s.threads| ==> s.threads[t] == Idle
    ensures forall m :: Received(s.delivered, m) + multiset(s.pending)[m] == s.logged[m]
    ensures s.loggerSet ==> s.pending == []
  {
    assert s.holder == Nobody;
    forall m
      ensures Received(s.delivered, m) + multiset(s.pending)[m] == s.logged[m]
    {
      assert Accounted(s, m);
      IdleHands(s.threads, m);
    }
  }
}
