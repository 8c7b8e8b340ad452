/**
 The capability hand-off protocol of kernel/rts/Capability.c as a transition
 system: one step per critical section under cap->lock or task->lock, plus the
 unlocked writes to task->wakeup and task->cap.  Any task may take any enabled
 step, so a run is an arbitrary interleaving, with spurious wake-ups.
 */
module HandOff {
  import opened Base

  type TaskId = nat
  type CapId = nat

  /** Where a task is in the code of Capability.c. */
  datatype Pc =
    | Outside                   // running anywhere else, with or without capabilities
    | Returning                 // in the wait loop of waitForReturnCapability
    | ReturnCheck(at: CapId)    // past its wait, about to take at->lock and re-check
    | Yielding(from: CapId)     // yieldCapability has cleared wakeup, not yet released
    | Idle                      // in the wait loop of yieldCapability
    | IdleCheck(at: CapId)      // past its wait in yieldCapability
    | Stopped

  datatype Task = Task(pc: Pc, wakeup: bool, cap: CapId, bound: bool, held: set<CapId>)

  /** returning is the list returning_tasks_hd..returning_tasks_tl, spare the spare_workers list. */
  datatype Cap = Cap(running: Option<TaskId>, returning: seq<TaskId>, spare: seq<TaskId>)

  datatype State = State(caps: seq<Cap>, tasks: map<TaskId, Task>, maxSpare: nat)

  /** What releaseCapability_ looks at besides the queues. */
  datatype RunQueue = Empty | UnboundHead | BoundHead(task: TaskId)
  datatype Load = Load(syncPending: bool, runQueue: RunQueue, shuttingDown: bool, otherWork: bool, newWorker: TaskId)

  datatype Step =
    | EnterReturn(t: TaskId, c: CapId)
    | Awake(t: TaskId)
    | RecheckReturn(t: TaskId)
    | StartYield(t: TaskId, c: CapId)
    | FinishYield(t: TaskId, load: Load)
    | RecheckYield(t: TaskId)
    | Release(t: TaskId, c: CapId, always: bool, load: Load)
    | Prod(t: TaskId, c: CapId, load: Load)
    | Send(t: TaskId, c: CapId, load: Load)
    | TryGrab(t: TaskId, c: CapId)
    | ShutdownProbe(t: TaskId, c: CapId)
    | Retarget(t: TaskId, c: CapId)
    | Migrate(t: TaskId, c: CapId)
    | SetBound(t: TaskId, bound: bool)
    | NewTask(t: TaskId, c: CapId, bound: bool)

  // ----- the pieces of a critical section -----

  function SetTask(s: State, t: TaskId, k: Task): State {
    s.(tasks := s.tasks[t := k])
  }

  function SetCap(s: State, c: CapId, k: Cap): State
    requires c < |s.caps|
  {
    s.(caps := s.caps[c := k])
  }

  /** The pointer to the first task of a queue. */
  function Head(q: seq<TaskId>): Option<TaskId> {
    if q == [] then None else Some(q[0])
  }

  /** giveCapabilityToTask: only the sticky flag is set; the task takes the capability itself. */
  function Give(s: State, o: Option<TaskId>): State {
    if o.None? || o.value !in s.tasks || s.tasks[o.value].wakeup then s
    else SetTask(s, o.value, s.tasks[o.value].(wakeup := true))
  }

  function Grab(s: State, c: CapId, t: TaskId): State
    requires c < |s.caps| && t in s.tasks
  {
    var k := s.tasks[t];
    SetTask(SetCap(s, c, s.caps[c].(running := Some(t))), t, k.(pc := Outside, held := k.held + {c}))
  }

  /** t joins or leaves a queue of c, and goes to pc. */
  function Requeued(s: State, c: CapId, t: TaskId, returning: seq<TaskId>, spare: seq<TaskId>, pc: Pc): State
    requires c < |s.caps| && t in s.tasks
  {
    SetTask(SetCap(s, c, s.caps[c].(returning := returning, spare := spare)), t, s.tasks[t].(pc := pc))
  }

  /** startWorkerTask: the fresh worker owns the capability from the start. */
  function StartWorker(s: State, c: CapId, w: TaskId): State
    requires c < |s.caps|
  {
    SetTask(SetCap(s, c, s.caps[c].(running := Some(w))), w, Task(Outside, false, c, false, {c}))
  }

  /** The load names a bound task that lives on c, and a worker id not yet in use. */
  predicate LoadOk(s: State, c: CapId, load: Load) {
    && load.newWorker !in s.tasks
    && (load.runQueue.BoundHead? ==>
          && load.runQueue.task in s.tasks
          && s.tasks[load.runQueue.task].cap == c)
  }

  /** releaseCapability_ from the point where running_task has been set to NULL. */
  function Pass(s: State, c: CapId, always: bool, load: Load): State
    requires c < |s.caps|
  {
    var k := s.caps[c];
    if k.returning != [] then Give(s, Head(k.returning))
    else if load.syncPending then s
    else if load.runQueue.BoundHead? then Give(s, Some(load.runQueue.task))
    else if k.spare == [] && (!load.shuttingDown || !load.runQueue.Empty?) then StartWorker(s, c, load.newWorker)
    else if (always || !load.runQueue.Empty? || load.otherWork) && k.spare != [] then Give(s, Head(k.spare))
    else s
  }

  /** The running task t lets go of c, then releaseCapability_ passes it on. */
  function LetGo(s: State, c: CapId, t: TaskId): State
    requires c < |s.caps| && t in s.tasks
  {
    var k := s.tasks[t];
    SetTask(SetCap(s, c, s.caps[c].(running := None)), t, k.(held := k.held - {c}))
  }

  // ----- the steps -----

  ghost predicate Enabled(s: State, step: Step) {
    match step
    case EnterReturn(t, c) => t in s.tasks && s.tasks[t].pc.Outside? && c < |s.caps|
    case Awake(t) => t in s.tasks && (s.tasks[t].pc.Returning? || s.tasks[t].pc.Idle?)
    case RecheckReturn(t) => t in s.tasks && s.tasks[t].pc.ReturnCheck? && s.tasks[t].pc.at < |s.caps|
    case StartYield(t, c) =>
      && t in s.tasks && s.tasks[t].pc.Outside? && c in s.tasks[t].held
      && (!s.tasks[t].bound ==> s.tasks[t].cap == c)
    case FinishYield(t, load) =>
      && t in s.tasks && s.tasks[t].pc.Yielding? && s.tasks[t].pc.from < |s.caps|
      && LoadOk(s, s.tasks[t].pc.from, load)
    case RecheckYield(t) => t in s.tasks && s.tasks[t].pc.IdleCheck? && s.tasks[t].pc.at < |s.caps|
    case Release(t, c, _, load) =>
      t in s.tasks && s.tasks[t].pc.Outside? && c < |s.caps| && c in s.tasks[t].held && LoadOk(s, c, load)
    case Prod(t, c, load) => t in s.tasks && s.tasks[t].pc.Outside? && c < |s.caps| && LoadOk(s, c, load)
    case Send(t, c, load) => t in s.tasks && s.tasks[t].pc.Outside? && c < |s.caps| && LoadOk(s, c, load)
    case TryGrab(t, c) => t in s.tasks && s.tasks[t].pc.Outside? && c < |s.caps|
    case ShutdownProbe(t, c) => t in s.tasks && s.tasks[t].pc.Outside? && c < |s.caps|
    case Retarget(t, c) => t in s.tasks && s.tasks[t].pc.Outside? && c < |s.caps|
    case Migrate(t, c) =>
      t in s.tasks && s.tasks[t].bound && (s.tasks[t].pc.Idle? || s.tasks[t].pc.IdleCheck?) && c < |s.caps|
    case SetBound(t, _) => t in s.tasks && s.tasks[t].pc.Outside?
    case NewTask(t, c, _) => t !in s.tasks && c < |s.caps|
  }

  function Apply(s: State, step: Step): State
    requires Enabled(s, step)
  {
    match step
    case EnterReturn(t, c) => EnterReturnStep(s, t, c)
    case Awake(t) =>
      var k := s.tasks[t];
      SetTask(s, t, k.(wakeup := false, pc := if k.pc.Returning? then ReturnCheck(k.cap) else IdleCheck(k.cap)))
    case RecheckReturn(t) => RecheckReturnStep(s, t)
    case StartYield(t, c) => SetTask(s, t, s.tasks[t].(wakeup := false, pc := Yielding(c)))
    case FinishYield(t, load) => FinishYieldStep(s, t, load)
    case RecheckYield(t) => RecheckYieldStep(s, t)
    case Release(t, c, always, load) => Pass(LetGo(s, c, t), c, always, load)
    case Prod(t, c, load) => if s.caps[c].running == None then Pass(s, c, true, load) else s
    case Send(t, c, load) => if s.caps[c].running == None then Pass(s, c, false, load) else s
    case TryGrab(t, c) => TryGrabStep(s, t, c)
    case ShutdownProbe(t, c) => s   // grabbed and put back inside one critical section
    case Retarget(t, c) => SetTask(s, t, s.tasks[t].(cap := c))
    case Migrate(t, c) => SetTask(s, t, s.tasks[t].(cap := c))
    case SetBound(t, b) => SetTask(s, t, s.tasks[t].(bound := b))
    case NewTask(t, c, b) => SetTask(s, t, Task(Outside, false, c, b, {}))
  }

  /** waitForReturnCapability up to the release of cap->lock. */
  function EnterReturnStep(s: State, t: TaskId, c: CapId): State
    requires t in s.tasks && c < |s.caps|
  {
    var s1 := SetTask(s, t, s.tasks[t].(cap := c));
    if s.caps[c].running == None then Grab(s1, c, t)
    else Requeued(s1, c, t, s.caps[c].returning + [t], s.caps[c].spare, Returning)
  }

  /** The critical section inside the wait loop of waitForReturnCapability. */
  function RecheckReturnStep(s: State, t: TaskId): State
    requires t in s.tasks && s.tasks[t].pc.ReturnCheck? && s.tasks[t].pc.at < |s.caps|
  {
    var c := s.tasks[t].pc.at;
    var k := s.caps[c];
    if k.running != None then SetTask(s, t, s.tasks[t].(pc := Returning))
    else if Head(k.returning) != Some(t) then
      Give(SetTask(s, t, s.tasks[t].(pc := Returning)), Head(k.returning))
    else Grab(Requeued(s, c, t, k.returning[1..], k.spare, Outside), c, t)
  }

  /** releaseCapabilityAndQueueWorker, called from yieldCapability. */
  function FinishYieldStep(s: State, t: TaskId, load: Load): State
    requires t in s.tasks && s.tasks[t].pc.Yielding?
    requires s.tasks[t].pc.from < |s.caps|
  {
    var c := s.tasks[t].pc.from;
    var queued := !s.tasks[t].bound && |s.caps[c].spare| < s.maxSpare;
    var s1 := Requeued(s, c, t, s.caps[c].returning, SpareAfterYield(s, t),
                       if s.tasks[t].bound || queued then Idle else Stopped);
    Pass(LetGo(s1, c, t), c, false, load)
  }

  /** A yielding worker goes to the front of the spare workers, unless there are enough already. */
  function SpareAfterYield(s: State, t: TaskId): seq<TaskId>
    requires t in s.tasks && s.tasks[t].pc.Yielding? && s.tasks[t].pc.from < |s.caps|
  {
    var spare := s.caps[s.tasks[t].pc.from].spare;
    if !s.tasks[t].bound && |spare| < s.maxSpare then [t] + spare else spare
  }

  /** The critical section inside the wait loop of yieldCapability. */
  function RecheckYieldStep(s: State, t: TaskId): State
    requires t in s.tasks && s.tasks[t].pc.IdleCheck? && s.tasks[t].pc.at < |s.caps|
  {
    var k := s.tasks[t];
    var c := k.pc.at;
    if s.caps[c].running != None || k.cap != c then SetTask(s, t, k.(pc := Idle))
    else if k.bound then Grab(s, c, t)
    else if Head(s.caps[c].spare) != Some(t) then
      Give(SetTask(s, t, k.(pc := Idle)), Head(s.caps[c].spare))
    else Grab(Requeued(s, c, t, s.caps[c].returning, s.caps[c].spare[1..], Outside), c, t)
  }

  function TryGrabStep(s: State, t: TaskId, c: CapId): State
    requires t in s.tasks && c < |s.caps|
  {
    if s.caps[c].running != None then s
    else Grab(SetTask(s, t, s.tasks[t].(cap := c)), c, t)
  }

  // ----- the invariant -----

  /** running_task is t exactly when t's own control state holds the capability. */
  ghost predicate Ownership(s: State) {
    && (forall c :: 0 <= c < |s.caps| && s.caps[c].running.Some? ==> Holds(s, s.caps[c].running.value, c))
    && (forall t: TaskId, c: CapId :: Holds(s, t, c) ==> c < |s.caps| && s.caps[c].running == Some(t))
  }

  /** t's own code knows that it has capability c. */
  predicate Holds(s: State, t: TaskId, c: CapId) {
    t in s.tasks && c in s.tasks[t].held
  }

  ghost predicate PcOk(s: State, k: Task) {
    && k.cap < |s.caps|
    && (k.pc.ReturnCheck? ==> k.pc.at == k.cap)
    && (k.pc.Yielding? ==> k.pc.from in k.held && (!k.bound ==> k.cap == k.pc.from))
    && (k.pc.IdleCheck? ==> k.pc.at < |s.caps| && (!k.bound ==> k.pc.at == k.cap))
  }

  predicate IsReturner(k: Task, c: CapId) {
    (k.pc.Returning? || k.pc.ReturnCheck?) && k.cap == c
  }

  predicate IsSpare(k: Task, c: CapId) {
    (k.pc.Idle? || k.pc.IdleCheck?) && !k.bound && k.cap == c
  }

  /** The returning queue of c lists, once each, exactly the tasks returning to c; likewise the spare workers. */
  ghost predicate QueuesOk(s: State, c: CapId)
    requires c < |s.caps|
  {
    && NoDup(s.caps[c].returning) && NoDup(s.caps[c].spare)
    && |s.caps[c].spare| <= s.maxSpare
    && (forall t :: t in s.caps[c].returning <==> t in s.tasks && IsReturner(s.tasks[t], c))
    && (forall t :: t in s.caps[c].spare <==> t in s.tasks && IsSpare(s.tasks[t], c))
  }

  predicate Notified(s: State, t: TaskId)
    requires t in s.tasks
  {
    s.tasks[t].wakeup || s.tasks[t].pc.ReturnCheck?
  }

  /** A free capability with returners has a returner that has been told so. */
  ghost predicate HandedOff(s: State, c: CapId)
    requires c < |s.caps|
  {
    s.caps[c].running == None && s.caps[c].returning != [] ==>
      exists t :: t in s.caps[c].returning && t in s.tasks && Notified(s, t)
  }

  ghost predicate Core(s: State) {
    && Ownership(s)
    && (forall t :: t in s.tasks ==> PcOk(s, s.tasks[t]))
    && (forall c :: 0 <= c < |s.caps| ==> QueuesOk(s, c))
  }

  ghost predicate Inv(s: State) {
    && Core(s)
    && (forall c :: 0 <= c < |s.caps| ==> HandedOff(s, c))
  }

  /** Inv, except that the hand-off of c may still be due; with c == |s.caps| this is Inv itself. */
  ghost predicate InvBut(s: State, c: CapId) {
    && Core(s)
    && (forall d :: 0 <= d < |s.caps| && d != c ==> HandedOff(s, d))
  }

  predicate SameQueues(j: Task, k: Task) {
    && k.held == j.held
    && ((j.pc.Returning? || j.pc.ReturnCheck? || k.pc.Returning? || k.pc.ReturnCheck?) ==>
          (j.pc.Returning? || j.pc.ReturnCheck?) && (k.pc.Returning? || k.pc.ReturnCheck?) && k.cap == j.cap)
    && (((j.pc.Idle? || j.pc.IdleCheck?) && !j.bound) || ((k.pc.Idle? || k.pc.IdleCheck?) && !k.bound) ==>
          (j.pc.Idle? || j.pc.IdleCheck?) && (k.pc.Idle? || k.pc.IdleCheck?) && k.bound == j.bound && k.cap == j.cap)
  }

  // ----- preservation, piece by piece -----

  lemma OwnershipKeeps(s: State, s': State)
    requires Ownership(s) && |s'.caps| == |s.caps|
    requires forall c :: 0 <= c < |s.caps| ==> s'.caps[c].running == s.caps[c].running
    requires s'.tasks.Keys == s.tasks.Keys && forall t :: t in s.tasks ==> s'.tasks[t].held == s.tasks[t].held
    ensures Ownership(s')
  {
    assert forall t: TaskId, c: CapId :: Holds(s', t, c) == Holds(s, t, c);
  }

  /** A task may change whatever leaves its holdings, its queue and its notification alone. */
  lemma TaskChange(s: State, t: TaskId, k: Task, x: CapId)
    requires InvBut(s, x) && t in s.tasks && PcOk(s, k) && SameQueues(s.tasks[t], k)
    requires (k.pc.Returning? && k.cap != x && Notified(s, t)) ==> k.wakeup
    ensures InvBut(SetTask(s, t, k), x)
  {
    var s' := SetTask(s, t, k);
    OwnershipKeeps(s, s');
    forall c | 0 <= c < |s'.caps|
      ensures QueuesOk(s', c)
    {
      assert QueuesOk(s, c);
    }
    forall d | 0 <= d < |s.caps| && d != x
      ensures HandedOff(s', d)
    {
      assert QueuesOk(s, d) && HandedOff(s, d);
      if s.caps[d].running == None && s.caps[d].returning != [] {
        var u :| u in s.caps[d].returning && u in s.tasks && Notified(s, u);
        assert IsReturner(s.tasks[u], d);
        assert Notified(s', u);
      }
    }
  }

  lemma GiveKeeps(s: State, o: Option<TaskId>, x: CapId)
    requires InvBut(s, x)
    ensures InvBut(Give(s, o), x)
    ensures x < |s.caps| && o.Some? && o.value in s.caps[x].returning ==> Inv(Give(s, o))
  {
    if o.Some? && o.value in s.tasks {
      var t := o.value;
      TaskChange(s, t, s.tasks[t].(wakeup := true), x);
      assert s.tasks[t].wakeup ==> s.tasks[t].(wakeup := true) == s.tasks[t];
      if x < |s.caps| && t in s.caps[x].returning {
        assert Notified(Give(s, o), t);
      }
    }
    if x < |s.caps| && o.Some? && o.value in s.caps[x].returning {
      assert QueuesOk(s, x);
    }
  }

  /** Handing a free capability to a task outside the queues of every capability. */
  lemma GrabKeeps(s: State, c: CapId, t: TaskId, x: CapId)
    requires InvBut(s, x) && c < |s.caps| && s.caps[c].running == None
    requires t in s.tasks && s.tasks[t].cap < |s.caps|
    requires s.tasks[t].pc.Outside? || (s.tasks[t].bound && s.tasks[t].pc.IdleCheck?)
    ensures InvBut(Grab(s, c, t), x)
    ensures x == c ==> Inv(Grab(s, c, t))
  {
    var s' := Grab(s, c, t);
    forall u | u in s.tasks
      ensures PcOk(s', s'.tasks[u])
    {
      assert PcOk(s, s.tasks[u]);
    }
    forall u: TaskId, d: CapId | Holds(s', u, d)
      ensures d < |s'.caps| && s'.caps[d].running == Some(u)
    {
      assert d == c || Holds(s, u, d);
      assert !Holds(s, u, c);
    }
    forall d | 0 <= d < |s'.caps| && s'.caps[d].running.Some?
      ensures Holds(s', s'.caps[d].running.value, d)
    {
      assert d == c || Holds(s, s.caps[d].running.value, d);
    }
    forall d | 0 <= d < |s'.caps|
      ensures QueuesOk(s', d)
    {
      assert QueuesOk(s, d);
    }
    forall d | 0 <= d < |s.caps| && (d != x || x == c)
      ensures HandedOff(s', d)
    {
      if d != c {
        assert QueuesOk(s, d) && HandedOff(s, d);
        if s.caps[d].running == None && s.caps[d].returning != [] {
          var u :| u in s.caps[d].returning && u in s.tasks && Notified(s, u);
          assert IsReturner(s.tasks[u], d);
          assert Notified(s', u);
        }
      }
    }
  }

  lemma WorkerKeeps(s: State, c: CapId, w: TaskId)
    requires InvBut(s, c) && c < |s.caps| && s.caps[c].running == None && w !in s.tasks
    ensures Inv(StartWorker(s, c, w))
  {
    var s0 := SetTask(s, w, Task(Outside, false, c, false, {}));
    FreshKeeps(s, w, Task(Outside, false, c, false, {}), c);
    GrabKeeps(s0, c, w, c);
    assert {} + {c} == {c};
    assert Grab(s0, c, w).tasks == StartWorker(s, c, w).tasks;
  }

  lemma FreshKeeps(s: State, t: TaskId, k: Task, x: CapId)
    requires InvBut(s, x) && t !in s.tasks && k.pc.Outside? && k.held == {} && k.cap < |s.caps|
    ensures InvBut(SetTask(s, t, k), x)
  {
    var s' := SetTask(s, t, k);
    assert Ownership(s') by {
      assert forall u: TaskId, c: CapId :: Holds(s', u, c) == Holds(s, u, c);
    }
    forall u | u in s'.tasks
      ensures PcOk(s', s'.tasks[u])
    {
      assert u != t ==> PcOk(s, s.tasks[u]);
    }
    forall d | 0 <= d < |s'.caps|
      ensures QueuesOk(s', d)
    {
      assert QueuesOk(s, d);
    }
    forall d | 0 <= d < |s.caps| && d != x
      ensures HandedOff(s', d)
    {
      assert QueuesOk(s, d) && HandedOff(s, d);
      if s.caps[d].running == None && s.caps[d].returning != [] {
        var u :| u in s.caps[d].returning && u in s.tasks && Notified(s, u);
        assert Notified(s', u);
      }
    }
  }

  /** releaseCapability_ restores the hand-off of a capability that has just become free. */
  lemma PassRestores(s: State, c: CapId, always: bool, load: Load)
    requires c < |s.caps| && InvBut(s, c) && s.caps[c].running == None && load.newWorker !in s.tasks
    ensures Inv(Pass(s, c, always, load))
  {
    var k := s.caps[c];
    if k.returning != [] {
      GiveKeeps(s, Head(k.returning), c);
    } else {
      assert HandedOff(s, c);
      if load.runQueue.BoundHead? { GiveKeeps(s, Some(load.runQueue.task), |s.caps|); }
      if k.spare != [] { GiveKeeps(s, Head(k.spare), |s.caps|); }
      WorkerKeeps(s, c, load.newWorker);
    }
  }

  // ----- every step keeps the invariant -----

  lemma EnterReturnKeeps(s: State, t: TaskId, c: CapId)
    requires Inv(s) && Enabled(s, EnterReturn(t, c))
    ensures Inv(EnterReturnStep(s, t, c))
  {
    TaskChange(s, t, s.tasks[t].(cap := c), |s.caps|);
    var s1 := SetTask(s, t, s.tasks[t].(cap := c));
    if s.caps[c].running == None {
      GrabKeeps(s1, c, t, c);
    } else {
      assert QueuesOk(s1, c);
      RequeueKeeps(s1, c, t, s1.caps[c].returning + [t], s1.caps[c].spare, Returning);
    }
  }

  /** Changing t together with the queue it joins or leaves, where the hand-off of c is not at stake. */
  lemma RequeueKeeps(s: State, c: CapId, t: TaskId, returning: seq<TaskId>, spare: seq<TaskId>, pc: Pc)
    requires InvBut(s, c) && t in s.tasks && c < |s.caps| && PcOk(s, s.tasks[t].(pc := pc))
    requires QueuesOk(Requeued(s, c, t, returning, spare, pc), c)
    requires forall d :: 0 <= d < |s.caps| && d != c ==>
               && !IsReturner(s.tasks[t], d) && !IsReturner(s.tasks[t].(pc := pc), d)
               && !IsSpare(s.tasks[t], d) && !IsSpare(s.tasks[t].(pc := pc), d)
    ensures InvBut(Requeued(s, c, t, returning, spare, pc), c)
  {
    var s' := Requeued(s, c, t, returning, spare, pc);
    OwnershipKeeps(s, s');
    forall d | 0 <= d < |s'.caps| && d != c
      ensures QueuesOk(s', d) && HandedOff(s', d)
    {
      assert QueuesOk(s, d) && HandedOff(s, d);
      if s.caps[d].running == None && s.caps[d].returning != [] {
        var u :| u in s.caps[d].returning && u in s.tasks && Notified(s, u);
        assert IsReturner(s.tasks[u], d);
        assert Notified(s', u);
      }
    }
  }

  lemma RecheckReturnKeeps(s: State, t: TaskId)
    requires Inv(s) && Enabled(s, RecheckReturn(t))
    ensures Inv(RecheckReturnStep(s, t))
  {
    var k := s.tasks[t];
    var c := k.pc.at;
    assert PcOk(s, k) && QueuesOk(s, c) && IsReturner(k, c);
    var q := s.caps[c].returning;
    if s.caps[c].running != None || Head(q) != Some(t) {
      TaskChange(s, t, k.(pc := Returning), c);
      var s1 := SetTask(s, t, k.(pc := Returning));
      if s.caps[c].running == None {
        GiveKeeps(s1, Head(q), c);
      } else {
        assert HandedOff(s1, c);
      }
    } else {
      assert q == [t] + q[1..];
      RequeueKeeps(s, c, t, q[1..], s.caps[c].spare, Outside);
      GrabKeeps(Requeued(s, c, t, q[1..], s.caps[c].spare, Outside), c, t, c);
    }
  }

  lemma RecheckYieldKeeps(s: State, t: TaskId)
    requires Inv(s) && Enabled(s, RecheckYield(t))
    ensures Inv(RecheckYieldStep(s, t))
  {
    var k := s.tasks[t];
    var c := k.pc.at;
    assert PcOk(s, k) && QueuesOk(s, c);
    var q := s.caps[c].spare;
    if s.caps[c].running != None || k.cap != c || (!k.bound && Head(q) != Some(t)) {
      TaskChange(s, t, k.(pc := Idle), |s.caps|);
      GiveKeeps(SetTask(s, t, k.(pc := Idle)), Head(q), |s.caps|);
    } else if k.bound {
      GrabKeeps(s, c, t, c);
    } else {
      assert q == [t] + q[1..];
      RequeueKeeps(s, c, t, s.caps[c].returning, q[1..], Outside);
      GrabKeeps(Requeued(s, c, t, s.caps[c].returning, q[1..], Outside), c, t, c);
    }
  }

  /** Letting go leaves only the hand-off of c due. */
  lemma LetGoKeeps(s: State, t: TaskId, c: CapId)
    requires InvBut(s, c) && Holds(s, t, c) && !s.tasks[t].pc.Yielding?
    ensures InvBut(LetGo(s, c, t), c) && LetGo(s, c, t).caps[c].running == None
  {
    var s' := LetGo(s, c, t);
    forall d | 0 <= d < |s'.caps|
      ensures QueuesOk(s', d) && (d != c ==> HandedOff(s', d))
    {
      assert QueuesOk(s, d);
      if d != c && s.caps[d].running == None && s.caps[d].returning != [] {
        assert HandedOff(s, d);
        var u :| u in s.caps[d].returning && u in s.tasks && Notified(s, u);
        assert Notified(s', u);
      }
    }
    forall u: TaskId, d: CapId | Holds(s', u, d)
      ensures d < |s'.caps| && s'.caps[d].running == Some(u)
    {
      assert Holds(s, u, d);
      assert d == c ==> u == t;
    }
    forall d | 0 <= d < |s'.caps| && s'.caps[d].running.Some?
      ensures Holds(s', s'.caps[d].running.value, d)
    {
      assert Holds(s, s.caps[d].running.value, d);
    }
    forall u | u in s'.tasks
      ensures PcOk(s', s'.tasks[u])
    {
      assert PcOk(s, s.tasks[u]);
      assert u != t && s.tasks[u].pc.Yielding? ==> Holds(s, u, s.tasks[u].pc.from);
    }
  }

  /** A yielding task that is queued as a spare worker, or stopped, still holds the capability. */
  lemma YieldQueued(s: State, t: TaskId)
    requires Inv(s) && t in s.tasks && s.tasks[t].pc.Yielding? && s.tasks[t].pc.from < |s.caps|
    ensures var c := s.tasks[t].pc.from;
      var stop := !s.tasks[t].bound && |s.caps[c].spare| >= s.maxSpare;
      var s1 := Requeued(s, c, t, s.caps[c].returning, SpareAfterYield(s, t), if stop then Stopped else Idle);
      && InvBut(s1, c) && Holds(s1, t, c) && !s1.tasks[t].pc.Yielding? && s1.tasks.Keys == s.tasks.Keys
  {
    var k := s.tasks[t];
    var c := k.pc.from;
    assert PcOk(s, k) && Holds(s, t, c) && QueuesOk(s, c);
    RequeueKeeps(s, c, t, s.caps[c].returning, SpareAfterYield(s, t),
                 if !k.bound && |s.caps[c].spare| >= s.maxSpare then Stopped else Idle);
  }

  lemma FinishYieldKeeps(s: State, t: TaskId, load: Load)
    requires Inv(s) && Enabled(s, FinishYield(t, load))
    ensures Inv(FinishYieldStep(s, t, load))
  {
    YieldQueued(s, t);
    var c := s.tasks[t].pc.from;
    var stop := !s.tasks[t].bound && |s.caps[c].spare| >= s.maxSpare;
    var s1 := Requeued(s, c, t, s.caps[c].returning, SpareAfterYield(s, t), if stop then Stopped else Idle);
    assert FinishYieldStep(s, t, load) == Pass(LetGo(s1, c, t), c, false, load);
    assert LetGo(s1, c, t).tasks.Keys == s1.tasks.Keys;
    hide Inv, InvBut, Holds, Pass, Requeued, SpareAfterYield;
    LetGoKeeps(s1, t, c);
    PassRestores(LetGo(s1, c, t), c, false, load);
  }

  lemma StepKeeps(s: State, step: Step)
    requires Inv(s) && Enabled(s, step)
    ensures Inv(Apply(s, step))
  {
    match step
    case EnterReturn(t, c) => EnterReturnKeeps(s, t, c);
    case Awake(t) =>
      var k := s.tasks[t];
      TaskChange(s, t, k.(wakeup := false, pc := if k.pc.Returning? then ReturnCheck(k.cap) else IdleCheck(k.cap)),
          |s.caps|);
    case RecheckReturn(t) => RecheckReturnKeeps(s, t);
    case StartYield(t, c) => TaskChange(s, t, s.tasks[t].(wakeup := false, pc := Yielding(c)), |s.caps|);
    case FinishYield(t, load) => FinishYieldKeeps(s, t, load);
    case RecheckYield(t) => RecheckYieldKeeps(s, t);
    case Release(t, c, always, load) =>
      assert Holds(s, t, c);
      LetGoKeeps(s, t, c);
      PassRestores(LetGo(s, c, t), c, always, load);
    case Prod(t, c, load) => if s.caps[c].running == None { PassRestores(s, c, true, load); }
    case Send(t, c, load) => if s.caps[c].running == None { PassRestores(s, c, false, load); }
    case TryGrab(t, c) =>
      TaskChange(s, t, s.tasks[t].(cap := c), |s.caps|);
      if s.caps[c].running == None { GrabKeeps(SetTask(s, t, s.tasks[t].(cap := c)), c, t, c); }
    case ShutdownProbe(t, c) =>
    case Retarget(t, c) => TaskChange(s, t, s.tasks[t].(cap := c), |s.caps|);
    case Migrate(t, c) => TaskChange(s, t, s.tasks[t].(cap := c), |s.caps|);
    case SetBound(t, b) => TaskChange(s, t, s.tasks[t].(bound := b), |s.caps|);
    case NewTask(t, c, b) => FreshKeeps(s, t, Task(Outside, false, c, b, {}), |s.caps|);
  }

  // ----- whole runs -----

  /** initCapability: every capability free, every queue empty; the tasks have not entered Capability.c yet. */
  ghost predicate Initial(s: State) {
    && (forall c :: 0 <= c < |s.caps| ==> s.caps[c] == Cap(None, [], []))
    && (forall t :: t in s.tasks ==> s.tasks[t].pc.Outside? && s.tasks[t].held == {} && s.tasks[t].cap < |s.caps|)
  }

  ghost predicate Run(s: State, steps: seq<Step>, s': State)
    decreases |steps|
  {
    if steps == [] then s == s'
    else Enabled(s, steps[0]) && Run(Apply(s, steps[0]), steps[1..], s')
  }

  lemma {:induction false} RunKeepsInv(s: State, steps: seq<Step>, s': State)
    requires Inv(s) && Run(s, steps, s')
    ensures Inv(s')
    decreases |steps|
  {
    if steps != [] {
      StepKeeps(s, steps[0]);
      RunKeepsInv(Apply(s, steps[0]), steps[1..], s');
    }
  }

  lemma InitialInv(s: State)
    requires Initial(s)
    ensures Inv(s)
  {
    forall t: TaskId, c: CapId
      ensures !Holds(s, t, c)
    {
    }
  }

  /** In every reachable state a free capability with a non-empty returning queue has a returner
      that is notified or is about to re-check. */
  lemma NoLostHandOff(s0: State, steps: seq<Step>, s: State, c: CapId)
    requires Initial(s0) && Run(s0, steps, s)
    requires c < |s.caps| && s.caps[c].running == None && s.caps[c].returning != []
    ensures exists t ::
        t in s.caps[c].returning && t in s.tasks && (s.tasks[t].wakeup || s.tasks[t].pc == ReturnCheck(c))
  {
    InitialInv(s0);
    RunKeepsInv(s0, steps, s);
    assert QueuesOk(s, c) && HandedOff(s, c);
    var t :| t in s.caps[c].returning && t in s.tasks && Notified(s, t);
    assert PcOk(s, s.tasks[t]);
  }

  /** running_task and the tasks' own control states agree, so no two tasks hold one capability. */
  lemma ExclusiveOwnership(s0: State, steps: seq<Step>, s: State, c: CapId, t: TaskId)
    requires Initial(s0) && Run(s0, steps, s) && c < |s.caps|
    ensures s.caps[c].running == Some(t) <==> Holds(s, t, c)
    ensures forall u: TaskId :: Holds(s, t, c) && Holds(s, u, c) ==> t == u
  {
    InitialInv(s0);
    RunKeepsInv(s0, steps, s);
  }

  /** No task is on two queues of the machine, or twice on one; the spare list never exceeds its bound. */
  lemma QueueDiscipline(s0: State, steps: seq<Step>, s: State, c: CapId, d: CapId, t: TaskId)
    requires Initial(s0) && Run(s0, steps, s) && c < |s.caps| && d < |s.caps|
    ensures NoDup(s.caps[c].returning) && NoDup(s.caps[c].spare) && |s.caps[c].spare| <= s.maxSpare
    ensures !(t in s.caps[c].returning && t in s.caps[d].spare)
    ensures t in s.caps[c].returning && t in s.caps[d].returning ==> c == d
    ensures t in s.caps[c].spare && t in s.caps[d].spare ==> c == d
    ensures t in s.caps[c].returning || t in s.caps[c].spare ==> t in s.tasks && s.tasks[t].cap == c
  {
    InitialInv(s0);
    RunKeepsInv(s0, steps, s);
    assert QueuesOk(s, c) && QueuesOk(s, d);
  }

  /** The queue heads passed to giveCapabilityToTask in the two wait loops are never NULL. */
  lemma RecheckNeverGivesNull(s: State, t: TaskId)
    requires Inv(s) && t in s.tasks
    ensures s.tasks[t].pc.ReturnCheck? ==>
              s.tasks[t].pc.at < |s.caps| && Head(s.caps[s.tasks[t].pc.at].returning).Some?
    ensures s.tasks[t].pc.IdleCheck? && s.tasks[t].pc.at == s.tasks[t].cap && !s.tasks[t].bound ==>
              s.tasks[t].pc.at < |s.caps| && Head(s.caps[s.tasks[t].pc.at].spare).Some?
  {
    var k := s.tasks[t];
    assert PcOk(s, k);
    if k.cap < |s.caps| {
      assert QueuesOk(s, k.cap);
      assert IsReturner(k, k.cap) ==> t in s.caps[k.cap].returning;
      assert IsSpare(k, k.cap) ==> t in s.caps[k.cap].spare;
    }
  }

  // ----- what the steps are for -----

  /** t has c, both as c says and as t knows itself. */
  predicate Has(s: State, t: TaskId, c: CapId) {
    c < |s.caps| && s.caps[c].running == Some(t) && Holds(s, t, c)
  }

  /** tryGrabCapability gets the capability exactly when it is free, and changes nothing when it is not. */
  lemma TryGrabTakes(s: State, t: TaskId, c: CapId)
    requires Inv(s) && Enabled(s, TryGrab(t, c))
    ensures var s' := Apply(s, TryGrab(t, c));
            if s.caps[c].running == None then Has(s', t, c) && s'.tasks[t].cap == c && s'.tasks[t].pc.Outside?
            else s' == s
  {
  }

  /** After a try by any task the capability is taken, so that the next try of another fails and the task has
      it no more than before. */
  lemma SecondTryFails(s: State, t: TaskId, u: TaskId, c: CapId)
    requires Inv(s) && Enabled(s, TryGrab(t, c)) && Enabled(Apply(s, TryGrab(t, c)), TryGrab(u, c)) && t != u
    ensures var s1 := Apply(s, TryGrab(t, c));
            && s1.caps[c].running.Some? && Apply(s1, TryGrab(u, c)) == s1
            && (s.caps[c].running == None ==> Has(s1, t, c) && !Holds(s1, u, c))
  {
    StepKeeps(s, TryGrab(t, c));
    TryGrabTakes(s, t, c);
    TryGrabTakes(Apply(s, TryGrab(t, c)), u, c);
  }

  /** Who comes to waitForReturnCapability gets the capability if it is free, and otherwise waits, as the last. */
  lemma EnterTakesOrWaits(s: State, t: TaskId, c: CapId)
    requires Inv(s) && Enabled(s, EnterReturn(t, c))
    ensures var s' := Apply(s, EnterReturn(t, c));
            && t in s'.tasks && s'.tasks[t].cap == c && c < |s'.caps|
            && if s.caps[c].running == None
               then Has(s', t, c) && s'.caps[c].returning == s.caps[c].returning
               else s'.tasks[t].pc == Returning && s'.caps[c] == s.caps[c].(returning := s.caps[c].returning + [t])
  {
  }

  /** Who releases or yields a capability has it no more, and no other but a worker started for it has. A yielding
      worker is the first spare one, or is stopped when there are as many as allowed; a bound task waits. */
  lemma LetsGo(s: State, step: Step, c: CapId)
    requires Inv(s) && Enabled(s, step)
    requires (step.Release? && step.c == c) || (step.FinishYield? && s.tasks[step.t].pc.from == c)
    ensures var s' := Apply(s, step);
            && Has(s, step.t, c) && !Holds(s', step.t, c) && c < |s'.caps|
            && (s'.caps[c].running == None || Has(s', step.load.newWorker, c))
            && var spare, stop := s.caps[c].spare, !s.tasks[step.t].bound && |s.caps[c].spare| >= s.maxSpare;
               && (step.FinishYield? ==> s'.tasks[step.t].pc == if stop then Stopped else Idle)
               && s'.caps[c].spare == if step.Release? || s.tasks[step.t].bound || stop then spare else [step.t] + spare
  {
    var t := step.t;
    assert PcOk(s, s.tasks[t]) && Holds(s, t, c);
    var s1 := if step.Release? then s
              else Requeued(s, c, t, s.caps[c].returning, SpareAfterYield(s, t),
                            if s.tasks[t].bound || |s.caps[c].spare| < s.maxSpare then Idle else Stopped);
    PassPasses(LetGo(s1, c, t), c, step.Release? && step.always, step.load, t);
    hide Pass, QueuesOk, PcOk, Ownership, HandedOff;
  }

  lemma PassPasses(s: State, c: CapId, always: bool, load: Load, t: TaskId)
    requires c < |s.caps| && s.caps[c].running == None && load.newWorker !in s.tasks && t in s.tasks
    ensures var s' := Pass(s, c, always, load);
            && t in s'.tasks && s'.tasks[t].held == s.tasks[t].held && s'.tasks[t].pc == s.tasks[t].pc
            && c < |s'.caps| && s'.caps[c].spare == s.caps[c].spare
            && (s'.caps[c].running == None || Has(s', load.newWorker, c))
  {
  }

  /** prodCapability and sendMessage leave a capability alone that a task has. */
  lemma RunningLeftAlone(s: State, step: Step)
    requires Inv(s) && Enabled(s, step) && (step.Prod? || step.Send?) && s.caps[step.c].running.Some?
    ensures Apply(s, step) == s
  {
  }

  /** The flag is cleared before each wait that follows, and the re-check is at the capability of that moment. */
  lemma FlagCleared(s: State, step: Step)
    requires Inv(s) && Enabled(s, step) && (step.Awake? || step.StartYield?)
    ensures step.t in Apply(s, step).tasks
    ensures var k, k' := s.tasks[step.t], Apply(s, step).tasks[step.t];
            && !k'.wakeup && k'.cap == k.cap && k'.held == k.held && k'.bound == k.bound
            && match k.pc
               case Returning => k'.pc == ReturnCheck(k.cap)
               case Idle => k'.pc == IdleCheck(k.cap)
               case _ => step.StartYield? && k'.pc == Yielding(step.c)
  {
  }

  // ----- first come, first served -----

  function Actor(step: Step): TaskId { step.t }

  predicate Joins(s: State, s1: State, t: TaskId, c: CapId) {
    t in s.tasks && !IsReturner(s.tasks[t], c) && t in s1.tasks && IsReturner(s1.tasks[t], c)
  }

  predicate GrantedTo(s: State, s1: State, t: TaskId, c: CapId) {
    t in s.tasks && IsReturner(s.tasks[t], c) && Holds(s1, t, c) && s1.tasks[t].pc.Outside?
  }

  /** The tasks that joined the returning queue of c along the run, in order, read off the states. */
  ghost function Joined(s: State, steps: seq<Step>, s': State, c: CapId): seq<TaskId>
    requires Run(s, steps, s')
    decreases |steps|
  {
    if steps == [] then [] else
      var s1 := Apply(s, steps[0]);
      (if Joins(s, s1, Actor(steps[0]), c) then [Actor(steps[0])] else []) + Joined(s1, steps[1..], s', c)
  }

  /** The queued tasks that obtained c along the run, in order. */
  ghost function Granted(s: State, steps: seq<Step>, s': State, c: CapId): seq<TaskId>
    requires Run(s, steps, s')
    decreases |steps|
  {
    if steps == [] then [] else
      var s1 := Apply(s, steps[0]);
      (if GrantedTo(s, s1, Actor(steps[0]), c) then [Actor(steps[0])] else []) + Granted(s1, steps[1..], s', c)
  }

  lemma PassKeepsReturning(s: State, c: CapId, always: bool, load: Load, d: CapId)
    requires c < |s.caps| && d < |s.caps|
    ensures var s1 := Pass(s, c, always, load);
            |s1.caps| == |s.caps| && s1.caps[d].returning == s.caps[d].returning
  {
  }

  lemma RecheckReturning(s: State, t: TaskId, c: CapId)
    requires Inv(s) && Enabled(s, RecheckReturn(t)) && c < |s.caps|
    ensures var s' := RecheckReturnStep(s, t);
      && |s'.caps| == |s.caps|
      && var (q, q') := (s.caps[c].returning, s'.caps[c].returning);
         q' == q || (s.tasks[t].pc.at == c && q == [t] + q' && Holds(s', t, c))
  {
    var q := s.caps[s.tasks[t].pc.at].returning;
    assert Head(q) == Some(t) ==> q == [t] + q[1..];
  }

  lemma FinishYieldReturning(s: State, t: TaskId, load: Load, c: CapId)
    requires Enabled(s, FinishYield(t, load)) && c < |s.caps|
    ensures var s' := FinishYieldStep(s, t, load); |s'.caps| == |s.caps| && s'.caps[c].returning == s.caps[c].returning
  {
    var d := s.tasks[t].pc.from;
    var queued := !s.tasks[t].bound && |s.caps[d].spare| < s.maxSpare;
    var s1 := Requeued(s, d, t, s.caps[d].returning, SpareAfterYield(s, t),
                       if s.tasks[t].bound || queued then Idle else Stopped);
    PassKeepsReturning(LetGo(s1, d, t), d, false, load, c);
    hide Pass;
  }

  /** Only the entry of waitForReturnCapability and its successful re-check touch a returning queue. */
  lemma StepReturning(s: State, step: Step, c: CapId)
    requires Inv(s) && Enabled(s, step) && c < |s.caps|
    ensures |Apply(s, step).caps| == |s.caps|
    ensures var q, q' := s.caps[c].returning, Apply(s, step).caps[c].returning;
            || q' == q
            || (step.EnterReturn? && step.c == c && q' == q + [Actor(step)])
            || (step.RecheckReturn? && s.tasks[step.t].pc.at == c && q == [Actor(step)] + q'
                 && Holds(Apply(s, step), step.t, c))
  {
    match step
    case FinishYield(t, load) => FinishYieldReturning(s, t, load, c);
    case Release(t, d, always, load) => PassKeepsReturning(LetGo(s, d, t), d, always, load, c);
    case Prod(t, d, load) => PassKeepsReturning(s, d, true, load, c);
    case Send(t, d, load) => PassKeepsReturning(s, d, false, load, c);
    case RecheckReturn(t) => RecheckReturning(s, t, c);
    case _ =>
  }

  /** One step leaves the queue of c alone, or appends the actor, or grants c to the actor at the head. */
  lemma StepQueue(s: State, step: Step, c: CapId)
    requires Inv(s) && Enabled(s, step) && c < |s.caps|
    ensures var s1 := Apply(s, step); var t := Actor(step);
            && |s1.caps| == |s.caps|
            && s.caps[c].returning + (if Joins(s, s1, t, c) then [t] else [])
               == (if GrantedTo(s, s1, t, c) then [t] else []) + s1.caps[c].returning
  {
    var s1 := Apply(s, step);
    var t := Actor(step);
    StepReturning(s, step, c);
    StepKeeps(s, step);
    var q, q' := s.caps[c].returning, s1.caps[c].returning;
    assert QueuesOk(s, c) && QueuesOk(s1, c);
    assert t in s.tasks ==> (t in q <==> IsReturner(s.tasks[t], c));
    assert t in s1.tasks ==> (t in q' <==> IsReturner(s1.tasks[t], c));
    if q' == q + [t] && q' != q {
      assert q'[|q|] == t;
      assert t !in q;
    } else if q != q' {
      assert q[0] == t && t in q;
      assert t !in q';
    }
  }

  /** Over any run: those queued at first, then those that joined, are those granted, then those still queued. */
  lemma {:induction false} FirstComeFirstServed(s: State, steps: seq<Step>, s': State, c: CapId)
    requires Inv(s) && Run(s, steps, s') && c < |s.caps|
    ensures c < |s'.caps|
    ensures s.caps[c].returning + Joined(s, steps, s', c) == Granted(s, steps, s', c) + s'.caps[c].returning
    decreases |steps|
  {
    if steps != [] {
      var s1 := Apply(s, steps[0]);
      StepKeeps(s, steps[0]);
      StepQueue(s, steps[0], c);
      FirstComeFirstServed(s1, steps[1..], s', c);
      Shuffle(s.caps[c].returning, if Joins(s, s1, Actor(steps[0]), c) then [Actor(steps[0])] else [],
              Joined(s1, steps[1..], s', c),
              if GrantedTo(s, s1, Actor(steps[0]), c) then [Actor(steps[0])] else [], s1.caps[c].returning,
              Granted(s1, steps[1..], s', c), s'.caps[c].returning);
    }
  }

  lemma Shuffle(q: seq<TaskId>, j: seq<TaskId>, js: seq<TaskId>, g: seq<TaskId>, q1: seq<TaskId>, gs: seq<TaskId>,
                q2: seq<TaskId>)
    requires q + j == g + q1 && q1 + js == gs + q2
    ensures q + (j + js) == (g + gs) + q2
  {
    assert q + (j + js) == (q + j) + js;
    assert (g + q1) + js == g + (q1 + js);
    assert g + (gs + q2) == (g + gs) + q2;
  }

  // ----- the hand-off completes -----

  /** The steps by which a task that has been told wakes up, if it has not yet, and re-checks. */
  function Attempt(s: State, t: TaskId): seq<Step>
    requires t in s.tasks
  {
    if s.tasks[t].pc.ReturnCheck? then [RecheckReturn(t)] else [Awake(t), RecheckReturn(t)]
  }

  lemma RunConcat(s: State, xs: seq<Step>, s1: State, ys: seq<Step>, s2: State)
    requires Run(s, xs, s1) && Run(s1, ys, s2)
    ensures Run(s, xs + ys, s2)
    decreases |xs|
  {
    if xs == [] {
      assert xs + ys == ys;
    } else {
      assert (xs + ys)[1..] == xs[1..] + ys;
      RunConcat(Apply(s, xs[0]), xs[1..], s1, ys, s2);
    }
  }

  lemma AttemptRuns(s: State, c: CapId, t: TaskId) returns (s': State)
    requires Inv(s) && c < |s.caps| && s.caps[c].running == None && t in s.caps[c].returning
    ensures t in s.tasks && Run(s, Attempt(s, t), s') && |s'.caps| == |s.caps|
    ensures var q := s.caps[c].returning;
            if q[0] == t then s'.caps[c].running == Some(t) && s'.caps[c].returning == q[1..]
            else s'.caps[c] == s.caps[c] && q[0] in s'.tasks && s'.tasks[q[0]].wakeup
  {
    assert QueuesOk(s, c) && PcOk(s, s.tasks[t]) && IsReturner(s.tasks[t], c);
    var q := s.caps[c].returning;
    assert q[0] in q;
    assert q[0] in s.tasks;
    var s1 := s;
    if s.tasks[t].pc.Returning? {
      s1 := Apply(s, Awake(t));
      assert Run(s1, [], s1);
    }
    s' := Apply(s1, RecheckReturn(t));
    assert Run(s', [], s');
    assert Run(s1, [RecheckReturn(t)], s');
    assert [Awake(t), RecheckReturn(t)][1..] == [RecheckReturn(t)];
  }

  /** From any reachable state with a free capability and returners, a notified returner and the head
      of the queue, acting alone and at most four times, make the head the owner. */
  lemma HandOffCompletes(s: State, c: CapId) returns (steps: seq<Step>, s': State)
    requires Inv(s) && c < |s.caps| && s.caps[c].running == None && s.caps[c].returning != []
    ensures Run(s, steps, s') && |steps| <= 4
    ensures forall i :: 0 <= i < |steps| ==>
              Actor(steps[i]) in s.caps[c].returning && (steps[i].Awake? || steps[i].RecheckReturn?)
    ensures exists i :: 0 <= i < |steps| && Actor(steps[i]) in s.tasks && Notified(s, Actor(steps[i]))
    ensures |s'.caps| == |s.caps|
    ensures s'.caps[c].running == Some(s.caps[c].returning[0]) && s'.caps[c].returning == s.caps[c].returning[1..]
  {
    assert HandedOff(s, c);
    var q := s.caps[c].returning;
    var t :| t in q && t in s.tasks && Notified(s, t);
    s' := AttemptRuns(s, c, t);
    steps := Attempt(s, t);
    assert Actor(steps[0]) == t;
    if q[0] != t {
      var first := steps;
      var s1 := s';
      RunKeepsInv(s, first, s1);
      s' := AttemptRuns(s1, c, q[0]);
      steps := first + Attempt(s1, q[0]);
      RunConcat(s, first, s1, Attempt(s1, q[0]), s');
      assert steps[0] == first[0];
    }
  }
}
