/**
 The records of kernel/rts/Capability.c, updated in place: Task and Capability, with the returning
 queue and the spare-worker list threaded through one field, Task.next.  Each critical section is
 proved to be a step of HandOff: if the records it touches are those of an abstract state s before,
 they are those of the state after the step; its modifies clause says that no other record changes.
 */
module Capability {
  import opened Base
  import H = HandOff

  class Task {
    const id: H.TaskId
    var next: Task?
    var wakeup: bool
    var cap: H.CapId
    var bound: bool          // incall->tso != NULL
    ghost var pc: H.Pc
    ghost var held: set<H.CapId>

    constructor (id: H.TaskId, cap: H.CapId)
      ensures this.id == id && this.cap == cap && next == null && !wakeup && !bound
      ensures pc == H.Outside && held == {}
    {
      this.id, this.cap, this.next, this.wakeup, this.bound := id, cap, null, false, false;
      pc, held := H.Outside, {};
    }

    /** This record is the task of the same identity in s. */
    ghost predicate Is(s: H.State)
      reads this`pc, this`wakeup, this`cap, this`bound, this`held
    {
      id in s.tasks && s.tasks[id] == H.Task(pc, wakeup, cap, bound, held)
    }

    /** The task goes on elsewhere in the code. */
    ghost method Go(to: H.Pc, all: set<Task>, s: H.State, s1: H.State)
      requires this in all && Are(all, s) && s1.tasks == s.tasks[id := s.tasks[id].(pc := to)]
      modifies this`pc
      ensures pc == to && Are(all, s1)
    {
      pc := to;
    }

    /** The part of a wait loop under task->lock: read task->cap, clear the sticky flag. */
    method Awake(ghost all: set<Task>, ghost s: H.State) returns (at: H.CapId)
      requires this in all && Are(all, s) && H.Enabled(s, H.Awake(id))
      modifies this`wakeup, this`pc
      ensures Are(all, H.Apply(s, H.Awake(id)))
      ensures at == cap && pc == (if old(pc).Returning? then H.ReturnCheck(at) else H.IdleCheck(at)) && !wakeup
    {
      at := cap;
      wakeup := false;
      pc := if pc.Returning? then H.ReturnCheck(at) else H.IdleCheck(at);
    }

    /** giveCapabilityToTask. */
    method GiveCapability(ghost all: set<Task>, ghost s: H.State)
      requires this in all && Are(all, s)
      modifies this`wakeup
      ensures Are(all, H.Give(s, Some(id))) && wakeup
    {
      if !wakeup {
        wakeup := true;
      }
    }
  }

  /** These records, one for each identity, are tasks of s. */
  ghost predicate Are(all: set<Task>, s: H.State)
    reads all`pc, all`wakeup, all`cap, all`bound, all`held
  {
    && (forall t :: t in all ==> t.Is(s))
    && (forall t, u :: t in all && u in all && t.id == u.id ==> t == u)
  }

  function Ids(q: seq<Task>): (r: seq<H.TaskId>)
    ensures |r| == |q| && forall i :: 0 <= i < |q| ==> r[i] == q[i].id
  {
    seq(|q|, i requires 0 <= i < |q| => q[i].id)
  }

  lemma IdsTail(q: seq<Task>)
    requires q != []
    ensures Ids(q[1..]) == Ids(q)[1..]
  { }

  lemma IdsAppend(q: seq<Task>, r: seq<Task>)
    ensures Ids(q + r) == Ids(q) + Ids(r)
  { }

  ghost predicate Within(q: seq<Task>, all: set<Task>) {
    forall i :: 0 <= i < |q| ==> q[i] in all
  }

  lemma WithinTail(q: seq<Task>, all: set<Task>)
    requires Within(q, all) && q != []
    ensures q[0] in all && Within(q[1..], all)
  { }

  lemma WithinAppend(q: seq<Task>, r: seq<Task>, all: set<Task>)
    requires Within(q, all) && Within(r, all)
    ensures Within(q + r, all)
  { }

  /** hd, following next, lists exactly q. */
  ghost predicate Chain(hd: Task?, q: seq<Task>)
    reads q`next
  {
    && (hd == if q == [] then null else q[0])
    && (q != [] ==> q[|q| - 1].next == null)
    && (forall i :: 0 <= i < |q| - 1 ==> q[i].next == q[i + 1])
  }

  function First(q: seq<Task>): set<Task> {
    if q == [] then {} else {q[0]}
  }

  function Any(t: Task?): set<Task> {
    if t == null then {} else {t}
  }

  /** The state in the middle of releaseCapabilityAndQueueWorker. */
  ghost function Yielded(s: H.State, t: H.TaskId): H.State
    requires t in s.tasks && s.tasks[t].pc.Yielding? && s.tasks[t].pc.from < |s.caps|
  {
    var c := s.tasks[t].pc.from;
    var stop := !s.tasks[t].bound && |s.caps[c].spare| >= s.maxSpare;
    H.Requeued(s, c, t, s.caps[c].returning, H.SpareAfterYield(s, t), if stop then H.Stopped else H.Idle)
  }

  lemma Yielding(s: H.State, t: H.TaskId, load: H.Load)
    requires t in s.tasks && s.tasks[t].pc.Yielding? && s.tasks[t].pc.from < |s.caps|
    ensures var (c, s1) := (s.tasks[t].pc.from, Yielded(s, t));
      && t in s1.tasks && c < |s1.caps| && H.FinishYieldStep(s, t, load) == H.Pass(H.LetGo(s1, c, t), c, false, load)
      && s1.tasks.Keys == s.tasks.Keys
  {
    hide H.Pass, H.LetGo;
  }

  class Cap {
    const no: H.CapId
    var running_task: Task?
    var returning_tasks_hd: Task?
    var returning_tasks_tl: Task?
    var spare_workers: Task?
    var n_spare_workers: nat
    ghost var returning: seq<Task>
    ghost var spare: seq<Task>

    constructor (no: H.CapId)
      ensures this.no == no && Queues()
      ensures running_task == null && returning == [] && spare == []
    {
      this.no := no;
      running_task, returning_tasks_hd, returning_tasks_tl, spare_workers := null, null, null, null;
      n_spare_workers, returning, spare := 0, [], [];
    }

    /** The queues are acyclic lists without a task in common; the tail and the count are right. */
    ghost predicate Queues()
      reads this`returning_tasks_hd, this`returning_tasks_tl, this`spare_workers, this`n_spare_workers
      reads this`returning, this`spare, returning`next, spare`next
    {
      && Chain(returning_tasks_hd, returning)
      && returning_tasks_tl == (if returning == [] then null else returning[|returning| - 1])
      && Chain(spare_workers, spare)
      && n_spare_workers == |spare|
      && NoDup(returning) && NoDup(spare)
      && (forall i, j :: 0 <= i < |returning| && 0 <= j < |spare| ==> returning[i] != spare[j])
    }

    /** This record is the capability of the same number in s. */
    ghost predicate Is(s: H.State)
      reads this
    {
      && no < |s.caps|
      && s.caps[no] == H.Cap(if running_task == null then None else Some(running_task.id), Ids(returning), Ids(spare))
    }

    /** The task has the capability, both as it knows itself and as the capability says. */
    ghost predicate Has(task: Task)
      reads this`running_task, task`pc, task`held
    {
      running_task == task && no in task.held && task.pc == H.Outside
    }

    /** Everything the capability points to is among these tasks, and they and the capability are those of s. */
    ghost predicate Fits(all: set<Task>, s: H.State)
      reads this, all, returning`next, spare`next
    {
      && Queues() && Is(s) && Are(all, s) && (running_task != null ==> running_task in all)
      && Within(returning, all) && Within(spare, all)
    }

    /** Those whom a release may tell that the capability is free. */
    ghost function Tellable(bound: Task?): set<Task>
      reads this`returning, this`spare
    {
      First(returning) + First(spare) + Any(bound)
    }

    ghost predicate Unqueued(task: Task)
      reads this
    {
      task !in returning && task !in spare
    }

    /** newReturningTask: append at the tail. */
    method NewReturningTask(task: Task)
      requires Queues() && Unqueued(task) && task.next == null
      modifies this`returning_tasks_hd, this`returning_tasks_tl, this`returning, returning`next
      ensures Queues() && returning == old(returning) + [task]
    {
      if returning_tasks_hd != null {
        returning_tasks_tl.next := task;
      } else {
        returning_tasks_hd := task;
      }
      returning_tasks_tl := task;
      returning := returning + [task];
    }

    /** popReturningTask: take the head and clear its link. */
    method PopReturningTask() returns (task: Task)
      requires Queues() && returning != []
      modifies this`returning_tasks_hd, this`returning_tasks_tl, this`returning, returning`next
      ensures Queues() && old(returning) == [task] + returning && task.next == null
    {
      task := returning_tasks_hd;
      returning_tasks_hd := task.next;
      if returning_tasks_hd == null {
        returning_tasks_tl := null;
      }
      task.next := null;
      returning := returning[1..];
      assert forall i :: 0 <= i < |returning| ==> returning[i] == old(returning)[i + 1];
    }

    /** A worker going idle becomes the first spare worker. */
    method PushSpare(task: Task)
      requires Queues() && Unqueued(task)
      modifies this`spare_workers, this`n_spare_workers, this`spare, task`next
      ensures Queues() && spare == [task] + old(spare)
    {
      task.next := spare_workers;
      spare_workers := task;
      n_spare_workers := n_spare_workers + 1;
      spare := [task] + spare;
      assert forall i :: 0 < i < |spare| ==> spare[i] == old(spare)[i - 1];
    }

    /** The first spare worker takes itself off the list. */
    method PopSpare() returns (task: Task)
      requires Queues() && spare != []
      modifies this`spare_workers, this`n_spare_workers, this`spare, spare`next
      ensures Queues() && old(spare) == [task] + spare && task.next == null
    {
      task := spare_workers;
      spare_workers := task.next;
      task.next := null;
      n_spare_workers := n_spare_workers - 1;
      spare := spare[1..];
      assert forall i :: 0 <= i < |spare| ==> spare[i] == old(spare)[i + 1];
    }

    /** cap->running_task = task; the task goes on to run. */
    method Take(task: Task, ghost all: set<Task>, ghost s: H.State)
      requires Fits(all, s) && task in all
      modifies this`running_task, task`pc, task`held
      ensures Fits(all, H.Grab(s, no, task.id)) && Has(task)
    {
      hide Queues;
      running_task := task;
      task.held := task.held + {no};
      task.pc := H.Outside;
    }

    /** The task becomes the last of the returning queue. */
    method Join(task: Task, ghost all: set<Task>, ghost s: H.State)
      requires Fits(all, s) && task in all && Unqueued(task) && task.next == null
      modifies this`returning_tasks_hd, this`returning_tasks_tl, this`returning, returning`next, task`pc
      ensures returning == old(returning) + [task]
      ensures Fits(all, H.Requeued(s, no, task.id, s.caps[no].returning + [task.id], s.caps[no].spare, H.Returning))
    {
      ghost var s1 := H.Requeued(s, no, task.id, s.caps[no].returning + [task.id], s.caps[no].spare, H.Returning);
      IdsAppend(returning, [task]);
      WithinAppend(returning, [task], all);
      NewReturningTask(task);
      hide Queues, Ids, Within, Are;
      task.Go(H.Returning, all, s, s1);
    }

    /** The first returning task leaves the queue. */
    method Leave(task: Task, ghost all: set<Task>, ghost s: H.State)
      requires Fits(all, s) && returning != [] && returning[0] == task
      modifies this`returning_tasks_hd, this`returning_tasks_tl, this`returning, returning`next, task`pc
      ensures returning == old(returning)[1..] && task.next == null
      ensures Fits(all, H.Requeued(s, no, task.id, s.caps[no].returning[1..], s.caps[no].spare, H.Outside))
    {
      ghost var s1 := H.Requeued(s, no, task.id, s.caps[no].returning[1..], s.caps[no].spare, H.Outside);
      IdsTail(returning);
      WithinTail(returning, all);
      var _ := PopReturningTask();
      hide Queues, Ids, Within, Are;
      assert returning == old(returning)[1..];
      task.Go(H.Outside, all, s, s1);
    }

    /** The entry of waitForReturnCapability, once the capability has been chosen. */
    method EnterReturn(task: Task, ghost all: set<Task>, ghost s: H.State)
      requires Fits(all, s) && task in all && Unqueued(task) && task.next == null
      modifies this, returning`next, task`cap, task`pc, task`held
      ensures Fits(all, H.EnterReturnStep(s, task.id, no))
      ensures task.cap == no
      ensures if old(running_task) == null then Has(task) && returning == old(returning)
              else task.pc == H.Returning && running_task == old(running_task) && returning == old(returning) + [task]
    {
      ghost var s1 := H.SetTask(s, task.id, s.tasks[task.id].(cap := no));
      task.cap := no;
      assert Fits(all, s1) by { hide Queues; }
      hide Fits, H.Grab, H.Requeued;
      if running_task == null {
        Take(task, all, s1);
      } else {
        Join(task, all, s1);
      }
    }

    /** The capability is free and the task not the first that returns: tell the first instead. */
    method TellFirst(task: Task, ghost all: set<Task>, ghost s: H.State)
      requires Fits(all, s) && task in all && task.pc == H.ReturnCheck(no) && running_task == null
      requires returning != [] && returning[0] != task
      modifies task`pc, {returning[0]}`wakeup
      ensures Fits(all, H.RecheckReturnStep(s, task.id)) && task.pc == H.Returning && returning[0].wakeup
    {
      assert returning_tasks_hd == returning[0] && returning[0] in all && returning[0].id != task.id;
      ghost var s1 := H.SetTask(s, task.id, s.tasks[task.id].(pc := H.Returning));
      hide Queues, Within, Are;
      task.Go(H.Returning, all, s, s1);
      returning_tasks_hd.GiveCapability(all, s1);
    }

    /** The capability is free and the task the first that returns: it is taken. */
    method ComeBack(task: Task, ghost all: set<Task>, ghost s: H.State)
      requires Fits(all, s) && task.pc == H.ReturnCheck(no) && running_task == null
      requires returning != [] && returning[0] == task
      modifies this, returning`next, task`pc, task`held
      ensures Fits(all, H.RecheckReturnStep(s, task.id))
      ensures Has(task) && task.next == null && old(returning) == [task] + returning
    {
      hide Queues;
      Leave(task, all, s);
      Take(task, all, H.Requeued(s, no, task.id, s.caps[no].returning[1..], s.caps[no].spare, H.Outside));
    }

    /** The re-check inside the wait loop of waitForReturnCapability; got tells whether it is left. */
    method RecheckReturn(task: Task, ghost all: set<Task>, ghost s: H.State) returns (got: bool)
      requires Fits(all, s) && task in all && task.pc == H.ReturnCheck(no) && returning != []
      modifies this, returning`next, task`pc, task`held, First(returning)`wakeup
      ensures Fits(all, H.RecheckReturnStep(s, task.id))
      ensures got <==> running_task == task && old(running_task) == null
      ensures if got then Has(task) && task.next == null && old(returning) == [task] + returning
              else task.pc == H.Returning && running_task == old(running_task) && returning == old(returning)
      ensures !got && running_task == null ==> returning[0] != task && returning[0].wakeup
    {
      assert returning_tasks_hd == returning[0];
      hide Queues;
      if running_task == null {
        if returning_tasks_hd != task {
          TellFirst(task, all, s);
          return false;
        }
        ComeBack(task, all, s);
        return true;
      }
      task.pc := H.Returning;
      return false;
    }

    /** The first spare worker takes itself off the list. */
    method LeaveSpare(task: Task, ghost all: set<Task>, ghost s: H.State)
      requires Fits(all, s) && spare != [] && spare[0] == task
      modifies this`spare_workers, this`n_spare_workers, this`spare, spare`next, task`pc
      ensures spare == old(spare)[1..] && task.next == null
      ensures Fits(all, H.Requeued(s, no, task.id, s.caps[no].returning, s.caps[no].spare[1..], H.Outside))
    {
      ghost var s1 := H.Requeued(s, no, task.id, s.caps[no].returning, s.caps[no].spare[1..], H.Outside);
      IdsTail(spare);
      WithinTail(spare, all);
      var _ := PopSpare();
      hide Queues, Ids, Within, Are;
      assert spare == old(spare)[1..];
      task.Go(H.Outside, all, s, s1);
    }

    /** The task is not the first spare worker: tell that one instead. */
    method TellSpare(task: Task, ghost all: set<Task>, ghost s: H.State)
      requires Fits(all, s) && task in all && task.pc == H.IdleCheck(no)
      requires running_task == null && !task.bound && task.cap == no && spare != [] && spare[0] != task
      modifies task`pc, {spare[0]}`wakeup
      ensures Fits(all, H.RecheckYieldStep(s, task.id)) && task.pc == H.Idle && spare[0].wakeup
    {
      assert spare_workers == spare[0] && spare[0] in all && spare[0].id != task.id;
      ghost var s1 := H.SetTask(s, task.id, s.tasks[task.id].(pc := H.Idle));
      hide Queues, Within, Are;
      task.Go(H.Idle, all, s, s1);
      spare_workers.GiveCapability(all, s1);
    }

    /** The first spare worker takes the capability. */
    method Rise(task: Task, ghost all: set<Task>, ghost s: H.State)
      requires Fits(all, s) && task.pc == H.IdleCheck(no)
      requires running_task == null && !task.bound && task.cap == no && spare != [] && spare[0] == task
      modifies this, spare`next, task`pc, task`held
      ensures Fits(all, H.RecheckYieldStep(s, task.id))
      ensures Has(task) && task.next == null && old(spare) == [task] + spare
    {
      hide Queues;
      LeaveSpare(task, all, s);
      Take(task, all, H.Requeued(s, no, task.id, s.caps[no].returning, s.caps[no].spare[1..], H.Outside));
    }

    /** The re-check of a spare worker that is still on this capability. */
    method RecheckWorker(task: Task, ghost all: set<Task>, ghost s: H.State) returns (got: bool)
      requires Fits(all, s) && task in all && task.pc == H.IdleCheck(no)
      requires running_task == null && !task.bound && task.cap == no && spare != []
      modifies this, spare`next, task`pc, task`held, First(spare)`wakeup
      ensures Fits(all, H.RecheckYieldStep(s, task.id))
      ensures got <==> running_task == task
      ensures if got then Has(task) && task.next == null && old(spare) == [task] + spare
              else task.pc == H.Idle && running_task == null && spare == old(spare)
      ensures !got ==> spare[0] != task && spare[0].wakeup
    {
      assert spare_workers == spare[0];
      hide Queues, Fits, H.RecheckYieldStep;
      if spare_workers != task {
        TellSpare(task, all, s);
        return false;
      }
      Rise(task, all, s);
      return true;
    }

    /** The re-check inside the wait loop of yieldCapability. */
    method RecheckYield(task: Task, ghost all: set<Task>, ghost s: H.State) returns (got: bool)
      requires Fits(all, s) && task in all && task.pc == H.IdleCheck(no)
      requires !task.bound && task.cap == no ==> spare != []
      modifies this, spare`next, task`pc, task`held, First(spare)`wakeup
      ensures Fits(all, H.RecheckYieldStep(s, task.id))
      ensures got <==> running_task == task && old(running_task) == null
      ensures if task.bound then task.next == old(task.next) else if got then task.next == null else task.pc == H.Idle
      ensures if got then Has(task) && task.cap == no && old(spare) == (if task.bound then [] else [task]) + spare
              else task.pc == H.Idle && running_task == old(running_task) && spare == old(spare)
      ensures !got && running_task == null && task.cap == no ==> !task.bound && spare[0] != task && spare[0].wakeup
    {
      hide Queues;
      if running_task != null || task.cap != no {
        task.pc := H.Idle;
        return false;
      }
      if !task.bound {
        got := RecheckWorker(task, all, s);
        return;
      }
      Take(task, all, s);
      return true;
    }

    /** startWorkerTask: the fresh worker owns the capability before anyone else can take it. */
    method StartWorkerTask(id: H.TaskId, ghost all: set<Task>, ghost s: H.State) returns (worker: Task)
      requires Fits(all, s) && running_task == null && id !in s.tasks
      modifies this`running_task
      ensures fresh(worker) && running_task == worker && worker.next == null
      ensures Fits(all + {worker}, H.StartWorker(s, no, id))
    {
      hide Queues;
      worker := new Task(id, no);
      worker.held := {no};
      running_task := worker;
    }

    /** releaseCapability_ once running_task has been cleared: at most one task is told, or a worker started. */
    method Pass(always: bool, load: H.Load, bound: Task?, ghost all: set<Task>, ghost s: H.State) returns (told: Task?)
      requires Fits(all, s) && running_task == null && load.newWorker !in s.tasks
      requires load.runQueue.BoundHead? ==> bound != null && bound in all && bound.id == load.runQueue.task
      modifies this`running_task
      modifies Tellable(bound)`wakeup
      ensures Fits(all + Any(told), H.Pass(s, no, always, load))
      ensures told != null ==> told in all || (fresh(told) && told.next == null)
      ensures returning != [] ==> told == returning[0] && told.wakeup
      ensures running_task == null || (running_task == told && fresh(told))
      ensures told != null && running_task == null ==> told.wakeup
    {
      assert returning_tasks_hd == (if returning == [] then null else returning[0]);
      assert spare_workers == (if spare == [] then null else spare[0]);
      hide Queues;
      told := null;
      assert all + {} == all && forall t :: t in all ==> all + {t} == all;
      if returning_tasks_hd != null {
        returning_tasks_hd.GiveCapability(all, s);
        return returning_tasks_hd;
      }
      if load.syncPending {
        return;
      }
      if load.runQueue.BoundHead? {
        bound.GiveCapability(all, s);
        return bound;
      }
      if spare_workers == null {
        if !load.shuttingDown || !load.runQueue.Empty? {
          told := StartWorkerTask(load.newWorker, all, s);
          return;
        }
      }
      if always || !load.runQueue.Empty? || load.otherWork {
        if spare_workers != null {
          spare_workers.GiveCapability(all, s);
          return spare_workers;
        }
      }
    }

    /** cap->running_task = NULL at the head of releaseCapability_. */
    method LetGo(task: Task, ghost all: set<Task>, ghost s: H.State)
      requires Fits(all, s) && task in all
      modifies this`running_task, task`held
      ensures running_task == null && no !in task.held && Fits(all, H.LetGo(s, no, task.id))
    {
      hide Queues;
      running_task := null;
      task.held := task.held - {no};
    }

    /** The task becomes the first spare worker. */
    method JoinSpare(task: Task, ghost all: set<Task>, ghost s: H.State)
      requires Fits(all, s) && task in all && Unqueued(task)
      modifies this`spare_workers, this`n_spare_workers, this`spare, task`next, task`pc
      ensures spare == [task] + old(spare)
      ensures Fits(all, H.Requeued(s, no, task.id, s.caps[no].returning, [task.id] + s.caps[no].spare, H.Idle))
    {
      ghost var s1 := H.Requeued(s, no, task.id, s.caps[no].returning, [task.id] + s.caps[no].spare, H.Idle);
      IdsAppend([task], spare);
      WithinAppend([task], spare, all);
      PushSpare(task);
      hide Queues, Ids, Within, Are;
      task.Go(H.Idle, all, s, s1);
    }

    /** releaseCapabilityAndQueueWorker up to the release itself; stop tells whether the worker must exit. */
    method QueueWorker(task: Task, maxSpareWorkers: nat, ghost all: set<Task>, ghost s: H.State) returns (stop: bool)
      requires maxSpareWorkers == s.maxSpare
      requires Fits(all, s) && task in all && task.pc == H.Yielding(no) && Unqueued(task)
      modifies this`spare_workers, this`n_spare_workers, this`spare, task`next, task`pc
      ensures stop <==> !task.bound && |old(spare)| >= s.maxSpare
      ensures spare == if task.bound || stop then old(spare) else [task] + old(spare)
      ensures First(spare) <= First(old(spare)) + {task} && task.pc == if stop then H.Stopped else H.Idle
      ensures task.bound || stop ==> task.next == old(task.next)
      ensures Fits(all, Yielded(s, task.id))
    {
      assert n_spare_workers == |spare|;
      hide Queues;
      stop := false;
      if task.bound {
        task.pc := H.Idle;
      } else if n_spare_workers < maxSpareWorkers {
        JoinSpare(task, all, s);
      } else {
        task.pc := H.Stopped;
        stop := true;
      }
    }

    /** releaseCapability and releaseAndWakeupCapability: the running task lets go and passes the capability on, perhaps
        to itself, as the task of the bound thread at the head of the run queue or the first spare worker. */
    method Release(task: Task, always: bool, load: H.Load, bound: Task?, ghost all: set<Task>, ghost s: H.State)
      returns (told: Task?)
      requires Fits(all, s) && task in all && running_task == task && load.newWorker !in s.tasks
      requires load.runQueue.BoundHead? ==> bound != null && bound in all && bound.id == load.runQueue.task
      modifies this`running_task, task`held
      modifies Tellable(bound)`wakeup
      ensures Fits(all + Any(told), H.Pass(H.LetGo(s, no, task.id), no, always, load))
      ensures told != null ==> told in all || (fresh(told) && told.next == null)
      ensures returning != [] ==> told == returning[0] && told.wakeup
      ensures no !in task.held && (running_task == null || (running_task == told && fresh(told)))
      ensures told != null && running_task == null ==> told.wakeup
    {
      assert task.id in s.tasks;
      hide Fits, H.Pass;
      LetGo(task, all, s);
      told := Pass(always, load, bound, all, H.LetGo(s, no, task.id));
    }

    twostate lemma MoreTellable(x: (Task, Task?))
      requires returning == old(returning) && First(spare) <= First(old(spare)) + {x.0}
      ensures Tellable(x.1) <= old(Tellable(x.1)) + {x.0}
    {
    }

    lemma Middle(task: Task, load: H.Load, all: set<Task>, s: H.State)
      requires Fits(all, s) && task in all && task.pc == H.Yielding(no) && load.newWorker !in s.tasks
      ensures task.id in s.tasks && s.tasks[task.id].pc == H.Yielding(no) && no < |s.caps|
      ensures load.newWorker !in Yielded(s, task.id).tasks && task.id in Yielded(s, task.id).tasks
      ensures H.FinishYieldStep(s, task.id, load) == H.Pass(H.LetGo(Yielded(s, task.id), no, task.id), no, false, load)
    {
      hide Queues;
      Yielding(s, task.id, load);
    }

    /** releaseCapabilityAndQueueWorker, in yieldCapability: the worker is queued or stopped, lets go, and the
        capability is passed on, all under the lock. */
    method FinishYield(task: Task, maxSpareWorkers: nat, load: H.Load, bound: Task?, ghost all: set<Task>,
                       ghost s: H.State)
      returns (stop: bool, told: Task?)
      requires maxSpareWorkers == s.maxSpare && load.newWorker !in s.tasks
      requires Fits(all, s) && task in all && task.pc == H.Yielding(no) && running_task == task && Unqueued(task)
      requires load.runQueue.BoundHead? ==> bound != null && bound in all && bound.id == load.runQueue.task
      modifies this`running_task, this`spare_workers, this`n_spare_workers, this`spare
      modifies task`next, task`pc, task`held, task`wakeup
      modifies Tellable(bound)`wakeup
      ensures Fits(all + Any(told), H.FinishYieldStep(s, task.id, load))
      ensures told != null ==> told in all || (fresh(told) && told.next == null)
      ensures stop <==> !task.bound && |old(spare)| >= s.maxSpare
      ensures spare == if task.bound || stop then old(spare) else [task] + old(spare)
      ensures task.pc == if stop then H.Stopped else H.Idle
      ensures task.bound || stop ==> task.next == old(task.next)
      ensures returning != [] ==> told == returning[0] && told.wakeup
      ensures no !in task.held && (running_task == null || (running_task == told && fresh(told)))
      ensures told != null && running_task == null ==> told.wakeup
    {
      hide *;
      Middle(task, load, all, s);
      stop := QueueWorker(task, maxSpareWorkers, all, s);
      MoreTellable((task, bound));
      told := Release(task, false, load, bound, all, Yielded(s, task.id));
    }

    /** prodCapability (always) and the tail of sendMessage (not always): a free capability is passed on. */
    method Prod(task: Task, always: bool, load: H.Load, bound: Task?, ghost all: set<Task>, ghost s: H.State)
      returns (told: Task?)
      requires Fits(all, s) && load.newWorker !in s.tasks
      requires load.runQueue.BoundHead? ==> bound != null && bound in all && bound.id == load.runQueue.task
      modifies this`running_task
      modifies Tellable(bound)`wakeup
      ensures Fits(all + Any(told), if old(running_task) == null then H.Pass(s, no, always, load) else s)
      ensures told != null ==> told in all || (fresh(told) && told.next == null)
      ensures old(running_task) == null && returning != [] ==> told == returning[0] && told.wakeup
      ensures old(running_task) != null ==> told == null && unchanged(this) && unchanged(old(Tellable(bound)))
      ensures old(running_task) == null ==> running_task == null || (running_task == told && fresh(told))
      ensures told != null && running_task == null ==> told.wakeup
    {
      told := null;
      assert all + {} == all;
      if running_task == null {
        running_task := task;
        running_task := null;      // first statement of releaseCapability_
        assert Fits(all, s);
        hide Fits, H.Pass;
        told := Pass(always, load, bound, all, s);
      }
    }

    /** tryGrabCapability, under the lock. */
    method TryGrab(task: Task, ghost all: set<Task>, ghost s: H.State) returns (got: bool)
      requires Fits(all, s) && task in all
      modifies this`running_task, task`cap, task`pc, task`held
      ensures Fits(all, H.TryGrabStep(s, task.id, no))
      ensures got <==> old(running_task) == null
      ensures if got then Has(task) && task.cap == no else unchanged(this) && unchanged(task)
    {
      if running_task != null {
        return false;
      }
      task.cap := no;
      ghost var s1 := H.SetTask(s, task.id, s.tasks[task.id].(cap := no));
      assert Fits(all, s1) by { hide Queues; }
      hide Fits, H.Grab;
      Take(task, all, s1);
      return true;
    }
  }
}
