/**
 All the capabilities and tasks together.  Every method is one critical section of kernel/rts/Capability.c, or an
 unlocked write, on the records it touches.  Valid says that the records are always those of the state that some run of
 HandOff has reached, so that what holds of every run holds of the records.
 */
module Machine {
  import opened Base
  import H = HandOff
  import opened Capability

  /** On a queue, by its control state. */
  ghost predicate Waits(t: Task)
    reads t
  {
    t.pc.Returning? || t.pc.ReturnCheck? || ((t.pc.Idle? || t.pc.IdleCheck?) && !t.bound)
  }

  /** The other capabilities are the same, and the other tasks go on where they were. */
  ghost predicate Elsewhere(s: H.State, s1: H.State, c: H.CapId, t: H.TaskId) {
    && |s1.caps| == |s.caps| && s1.maxSpare == s.maxSpare
    && (forall d :: 0 <= d < |s.caps| && d != c ==> s1.caps[d] == s.caps[d])
    && (forall u :: u in s.tasks && u != t ==> u in s1.tasks && SameCode(s.tasks[u], s1.tasks[u]))
  }

  ghost predicate SameCode(k: H.Task, k1: H.Task) {
    k1.pc == k.pc && k1.bound == k.bound
  }

  lemma PassElsewhere(s: H.State, c: H.CapId, always: bool, load: H.Load)
    requires c < |s.caps| && load.newWorker !in s.tasks
    ensures forall t :: Elsewhere(s, H.Pass(s, c, always, load), c, t)
  {
  }

  /** c is the capability that the step is about, if it is about one. */
  ghost predicate About(s: H.State, step: H.Step, c: H.CapId) {
    match step
    case EnterReturn(_, d) => d == c
    case RecheckReturn(t) => t in s.tasks && s.tasks[t].pc == H.ReturnCheck(c)
    case FinishYield(t, _) => t in s.tasks && s.tasks[t].pc == H.Yielding(c)
    case RecheckYield(t) => t in s.tasks && s.tasks[t].pc == H.IdleCheck(c)
    case Release(_, d, _, _) => d == c
    case Prod(_, d, _) => d == c
    case Send(_, d, _) => d == c
    case TryGrab(_, d) => d == c
    case _ => true
  }

  lemma ReleaseElsewhere(s: H.State, c: H.CapId, t: H.TaskId, always: bool, load: H.Load)
    requires c < |s.caps| && t in s.tasks && load.newWorker !in s.tasks
    ensures Elsewhere(s, H.Pass(H.LetGo(s, c, t), c, always, load), c, t)
  {
    PassElsewhere(H.LetGo(s, c, t), c, always, load);
    hide H.Pass;
  }

  lemma YieldElsewhere(s: H.State, t: H.TaskId)
    requires t in s.tasks && s.tasks[t].pc.Yielding? && s.tasks[t].pc.from < |s.caps|
    ensures Elsewhere(s, Yielded(s, t), s.tasks[t].pc.from, t)
  {
  }

  lemma ReturnElsewhere(s: H.State, t: H.TaskId)
    requires t in s.tasks && s.tasks[t].pc.ReturnCheck? && s.tasks[t].pc.at < |s.caps|
    ensures Elsewhere(s, H.RecheckReturnStep(s, t), s.tasks[t].pc.at, t)
  {
  }

  lemma RiseElsewhere(s: H.State, t: H.TaskId)
    requires t in s.tasks && s.tasks[t].pc.IdleCheck? && s.tasks[t].pc.at < |s.caps|
    ensures Elsewhere(s, H.RecheckYieldStep(s, t), s.tasks[t].pc.at, t)
  {
  }

  lemma StepElsewhere(s: H.State, step: H.Step, c: H.CapId)
    requires H.Enabled(s, step) && About(s, step, c)
    ensures Elsewhere(s, H.Apply(s, step), c, step.t)
  {
    hide H.Pass, H.FinishYieldStep, H.RecheckReturnStep, H.RecheckYieldStep;
    match step
    case RecheckReturn(t) => ReturnElsewhere(s, t);
    case RecheckYield(t) => RiseElsewhere(s, t);
    case Release(t, _, always, load) => ReleaseElsewhere(s, c, t, always, load);
    case FinishYield(t, load) =>
      Yielding(s, t, load);
      YieldElsewhere(s, t);
      ReleaseElsewhere(Yielded(s, t), c, t, false, load);
    case Prod(_, _, load) => PassElsewhere(s, c, true, load);
    case Send(_, _, load) => PassElsewhere(s, c, false, load);
    case _ =>
  }

  lemma RunSnoc(s0: H.State, steps: seq<H.Step>, s: H.State, step: H.Step)
    requires H.Run(s0, steps, s) && H.Enabled(s, step)
    ensures H.Run(s0, steps + [step], H.Apply(s, step))
  {
    var s1 := H.Apply(s, step);
    hide H.Enabled, H.Apply;
    assert [step][1..] == [];
    assert H.Run(s1, [], s1);
    assert H.Run(s, [step], s1);
    H.RunConcat(s0, steps, s, [step], s1);
  }

  lemma Reached(s0: H.State, steps: seq<H.Step>, s: H.State)
    requires H.Initial(s0) && H.Run(s0, steps, s)
    ensures H.Inv(s)
  {
    H.InitialInv(s0);
    H.RunKeepsInv(s0, steps, s);
  }

  class Machine {
    const caps: seq<Cap>
    const maxSpareWorkers: nat
    ghost var all: set<Task>
    ghost var start: H.State
    ghost var history: seq<H.Step>
    ghost var s: H.State

    /** The records are those of s. */
    ghost predicate CapsFit()
      reads this, caps, all
    {
      && |caps| == |s.caps| && maxSpareWorkers == s.maxSpare && Are(all, s)
      && (forall c :: 0 <= c < |caps| ==> caps[c].no == c && CapFits(caps[c]))
    }

    ghost predicate CapFits(cap: Cap)
      reads this, cap, all
    {
      Within(cap.returning, all) && Within(cap.spare, all) && cap.Fits(all, s)
    }

    /** The link of a task on no queue is NULL. */
    ghost predicate Linked()
      reads this, all
    {
      forall t :: t in all && t.next != null ==> Waits(t)
    }

    ghost predicate Valid()
      reads this, caps, all
    {
      H.Initial(start) && H.Run(start, history, s) && CapsFit() && Linked()
    }

    /** Exactly one more step has been made. */
    twostate predicate Stepped(step: H.Step)
      reads this
    {
      && H.Enabled(old(s), step) && s == H.Apply(old(s), step)
      && start == old(start) && history == old(history) + [step] && old(all) <= all
    }

    /** initCapabilities: n free capabilities with empty queues, and no tasks yet. */
    constructor (n: nat, maxSpareWorkers: nat)
      ensures Valid() && fresh(caps) && |caps| == n && this.maxSpareWorkers == maxSpareWorkers
      ensures all == {} && history == [] && s == start
    {
      var made: seq<Cap> := [];
      while |made| < n
        invariant |made| <= n && fresh(made)
        invariant forall c :: 0 <= c < |made| ==> made[c].no == c && made[c].Queues() && made[c].running_task == null
        invariant forall c :: 0 <= c < |made| ==> made[c].returning == [] && made[c].spare == []
      {
        var cap := new Cap(|made|);
        made := made + [cap];
      }
      caps, this.maxSpareWorkers := made, maxSpareWorkers;
      all, history := {}, [];
      start := H.State(seq(n, _ => H.Cap(None, [], [])), map[], maxSpareWorkers);
      s := H.State(seq(n, _ => H.Cap(None, [], [])), map[], maxSpareWorkers);
    }

    // ----- what a critical section starts from -----

    /** What a queue of a capability lists is there, by its control state, and for that capability only. */
    ghost predicate Listed()
      reads this, caps, all
    {
      forall c :: 0 <= c < |caps| ==> OnlyHere(caps[c].returning, c) && OnlyHere(caps[c].spare, c)
    }

    ghost predicate OnlyHere(q: seq<Task>, c: H.CapId)
      reads this, all
    {
      forall i :: 0 <= i < |q| ==> q[i] in all && Waits(q[i]) && q[i].cap == c
    }

    lemma AllListed()
      requires CapsFit() && H.Inv(s)
      ensures Listed()
    {
      forall c | 0 <= c < |caps|
        ensures OnlyHere(caps[c].returning, c) && OnlyHere(caps[c].spare, c)
      {
        assert CapFits(caps[c]);
        assert H.QueuesOk(s, c);
        var (r, q) := (Ids(caps[c].returning), Ids(caps[c].spare));
        assert forall i :: 0 <= i < |r| ==> r[i] in s.caps[c].returning;
        assert forall i :: 0 <= i < |q| ==> q[i] in s.caps[c].spare;
      }
    }

    lemma Unlisted(task: Task, c: H.CapId)
      requires Linked() && Listed() && task in all && !Waits(task) && c < |caps|
      ensures caps[c].Unqueued(task) && task.next == null
    {
      assert OnlyHere(caps[c].returning, c) && OnlyHere(caps[c].spare, c);
    }

    ghost predicate Begun(c: H.CapId)
      reads this, caps, all
    {
      && c < |caps| && caps[c].no == c && Within(caps[c].returning, all) && Within(caps[c].spare, all)
           && caps[c].Fits(all, s)
      && maxSpareWorkers == s.maxSpare
      && forall d :: 0 <= d < |caps| && d != c ==> caps[d] != caps[c]
    }

    lemma Ready(c: H.CapId)
      requires Valid() && c < |caps|
      ensures c < |s.caps| && H.Inv(s) && Listed() && Linked() && Are(all, s) && Begun(c)
    {
      Reached(start, history, s);
      AllListed();
      assert CapFits(caps[c]);
    }

    // ----- what a critical section leaves alone -----

    twostate predicate CapsKept(c: H.CapId)
      reads caps
    {
      forall d :: 0 <= d < |caps| && d != c ==> unchanged(caps[d])
    }

    twostate predicate LinksKept(x: (H.CapId, Task?))
      requires x.0 < |caps|
      reads this`all, caps, all
    {
      old(all) <= all && forall t :: t in old(all) && t != x.1 ==>
          t in old(caps[x.0].returning) || t in old(caps[x.0].spare) || unchanged(t`next)
    }

    /** A critical section of x.1 on capability x.0 and no other. */
    twostate predicate Touched(x: (H.CapId, Task?))
      requires x.0 < |caps|
      reads this`all, caps, all
    {
      && (forall t :: t in all && t !in old(all) ==> t.next == null)
      && CapsKept(x.0) && LinksKept(x)
      && (x.1 != null && x.1 in all && x.1.next != null ==> Waits(x.1))
    }

    /** The acting task is x.1, of identity x.2, or one not there yet; it is on no queue but one of capability x.0. */
    ghost predicate Acting(x: (H.CapId, Task?, H.TaskId))
      reads this, all
    {
      if x.1 == null then x.2 !in s.tasks else x.1 in all && x.1.id == x.2 && (Waits(x.1) ==> x.1.cap == x.0)
    }

    twostate predicate NextKept(q: seq<Task>)
      reads q
    {
      forall i :: 0 <= i < |q| ==> q[i].next == old(q[i].next)
    }

    twostate lemma OtherKept(x: (H.CapId, Task?, H.TaskId, H.CapId))
      requires x.0 < |caps| && x.3 < |caps| && x.3 != x.0
      requires old(Listed() && Acting((x.0, x.1, x.2))) && Touched((x.0, x.1))
      ensures old(allocated(caps[x.3].returning) && allocated(caps[x.3].spare))
      ensures NextKept(old(caps[x.3].returning)) && NextKept(old(caps[x.3].spare))
    {
      assert old(OnlyHere(caps[x.3].returning, x.3) && OnlyHere(caps[x.3].spare, x.3));
      assert old(OnlyHere(caps[x.0].returning, x.0) && OnlyHere(caps[x.0].spare, x.0));
    }

    twostate lemma QueuesKept(d: Cap)
      requires unchanged(d) && NextKept(old(d.returning)) && NextKept(old(d.spare)) && old(d.Queues())
      ensures d.Queues()
    {
    }

    /** The other capabilities are as they were: their queues have no task in common with this one. */
    twostate lemma OtherFits(x: (H.CapId, Task?, H.TaskId, H.CapId))
      requires x.0 < |caps| && x.3 < |caps| && x.3 != x.0
      requires old(CapsFit() && Listed() && Acting((x.0, x.1, x.2)))
      requires Touched((x.0, x.1)) && Elsewhere(old(s), s, x.0, x.2) && Are(all, s)
      ensures caps[x.3].no == x.3 && CapFits(caps[x.3])
    {
      var d := caps[x.3];
      assert old(CapFits(d) && d.no == x.3);
      assert s.caps[x.3] == old(s.caps)[x.3] && unchanged(d) && old(all) <= all;
      hide Touched, Listed, Are, Elsewhere, CapsKept, LinksKept, CapsFit, Acting;
      OtherKept(x);
      QueuesKept(d);
      hide Cap.Queues, NextKept, Within;
    }

    twostate lemma StillLinked(x: (H.CapId, Task?, H.TaskId))
      requires x.0 < |caps| && Touched((x.0, x.1)) && Elsewhere(old(s), s, x.0, x.2) && Are(all, s)
      requires old(Are(all, s) && Linked() && Listed() && Acting(x))
      ensures Linked()
    {
      assert old(OnlyHere(caps[x.0].returning, x.0) && OnlyHere(caps[x.0].spare, x.0));
      forall t | t in all && t.next != null
        ensures Waits(t)
      {
        if t in old(all) && t != x.1 {
          assert old(t.Is(s)) && t.Is(s) && SameCode(old(s).tasks[t.id], s.tasks[t.id]);
        }
      }
    }

    twostate lemma Settled(x: (H.CapId, Task?, H.TaskId))
      requires x.0 < |caps| && Touched((x.0, x.1)) && Elsewhere(old(s), s, x.0, x.2) && caps[x.0].Fits(all, s)
      requires old(CapsFit() && Linked() && Listed() && Acting(x))
      ensures CapsFit() && Linked()
    {
      StillLinked(x);
      hide Touched, Listed, CapFits;
      assert CapFits(caps[x.0]) by { }
      forall d | 0 <= d < |caps| && d != x.0
        ensures caps[d].no == d && CapFits(caps[d])
      {
        OtherFits((x.0, x.1, x.2, d));
      }
    }

    twostate lemma Done(x: (H.CapId, Task?, H.Step))
      requires x.0 < |caps| && old(Valid() && Listed() && Acting((x.0, x.1, x.2.t)))
      requires Stepped(x.2) && About(old(s), x.2, x.0) && Touched((x.0, x.1)) && caps[x.0].Fits(all, s)
      ensures Valid()
    {
      StepElsewhere(old(s), x.2, x.0);
      RunSnoc(start, old(history), old(s), x.2);
      hide Touched, Elsewhere, Listed, Acting, H.Run, H.Initial, H.Apply, H.Enabled;
      Settled((x.0, x.1, x.2.t));
    }

    // ----- waitForReturnCapability -----

    lemma OutsideReady(task: Task, c: H.CapId)
      requires Valid() && task in all && task.pc.Outside? && c < |caps|
      ensures task.id in s.tasks && s.tasks[task.id].pc.Outside? && c < |s.caps| && Acting((c, task, task.id))
      ensures H.Inv(s) && Listed() && Begun(c) && caps[c].Unqueued(task) && task.next == null
    {
      Ready(c);
      Unlisted(task, c);
    }

    method EnterReturn(task: Task, c: H.CapId)
      requires Valid() && task in all && task.pc.Outside? && c < |caps|
      modifies this`s, this`history, caps, all
      ensures Valid() && Stepped(H.EnterReturn(task.id, c))
      ensures c < |caps| && task.cap == c && if old(caps[c].running_task) == null then caps[c].Has(task)
              else task.pc == H.Returning && caps[c].returning == old(caps[c].returning) + [task]
    {
      hide H.Inv, H.Run, H.Initial, H.Apply, Valid, Begun, CapsFit, Listed, Linked, Touched, Acting, Cap.Fits;
      hide Cap.Unqueued;
      OutsideReady(task, c);
      EnterReturnRecords(task, c);
      s, history := H.Apply(s, H.EnterReturn(task.id, c)), history + [H.EnterReturn(task.id, c)];
      Done((c, task, H.EnterReturn(task.id, c)));
    }

    method EnterReturnRecords(task: Task, c: H.CapId)
      requires Begun(c) && task in all && caps[c].Unqueued(task) && task.next == null
      requires H.Enabled(s, H.EnterReturn(task.id, c))
      modifies caps, all
      ensures Touched((c, task)) && caps[c].Fits(all, H.Apply(s, H.EnterReturn(task.id, c)))
      ensures task.cap == c && if old(caps[c].running_task) == null then caps[c].Has(task)
              else task.pc == H.Returning && caps[c].returning == old(caps[c].returning) + [task]
    {
      hide Cap.Fits, H.EnterReturnStep;
      caps[c].EnterReturn(task, all, s);
    }

    lemma ReturnReady(task: Task, c: H.CapId)
      requires Valid() && task in all && task.pc == H.ReturnCheck(c)
      ensures c < |caps| && H.Enabled(s, H.RecheckReturn(task.id)) && About(s, H.RecheckReturn(task.id), c)
      ensures task.id in s.tasks && s.tasks[task.id].pc == H.ReturnCheck(c) && c < |s.caps|
      ensures H.Apply(s, H.RecheckReturn(task.id)) == H.RecheckReturnStep(s, task.id)
      ensures Acting((c, task, task.id)) && Listed() && Begun(c) && caps[c].returning != []
    {
      Reached(start, history, s);
      assert H.PcOk(s, s.tasks[task.id]);
      H.RecheckNeverGivesNull(s, task.id);
      Ready(c);
    }

    method RecheckReturn(task: Task, c: H.CapId) returns (got: bool)
      requires Valid() && task in all && task.pc == H.ReturnCheck(c)
      modifies this`s, this`history, caps, all
      ensures Valid() && Stepped(H.RecheckReturn(task.id))
      ensures c < |caps| && (got <==> caps[c].running_task == task && old(caps[c].running_task) == null)
    {
      hide H.Inv, H.Run, H.Initial, H.Apply, H.Enabled, Valid, Begun, CapsFit, Listed, Linked, Touched;
      hide Acting, About, Cap.Fits;
      ReturnReady(task, c);
      got := RecheckReturnRecords(task, c);
      s, history := H.Apply(s, H.RecheckReturn(task.id)), history + [H.RecheckReturn(task.id)];
      Done((c, task, H.RecheckReturn(task.id)));
    }

    method RecheckReturnRecords(task: Task, c: H.CapId) returns (got: bool)
      requires Begun(c) && task in all && task.pc == H.ReturnCheck(c) && caps[c].returning != []
      requires task.id in s.tasks && s.tasks[task.id].pc == H.ReturnCheck(c) && c < |s.caps|
      modifies caps, all
      ensures Touched((c, task)) && caps[c].Fits(all, H.RecheckReturnStep(s, task.id))
      ensures got <==> caps[c].running_task == task && old(caps[c].running_task) == null
    {
      hide Cap.Fits, H.RecheckReturnStep;
      got := ReturnOn(caps[c], task);
    }

    method ReturnOn(cap: Cap, task: Task) returns (got: bool)
      requires cap.Fits(all, s) && Within(cap.returning, all) && task in all
      requires task.pc == H.ReturnCheck(cap.no) && cap.returning != []
      requires task.id in s.tasks && s.tasks[task.id].pc == H.ReturnCheck(cap.no) && cap.no < |s.caps|
      modifies cap, all
      ensures forall t :: t in all && t != task ==> t in old(cap.returning) || t.next == old(t.next)
      ensures task.next != null ==> Waits(task)
      ensures cap.Fits(all, H.RecheckReturnStep(s, task.id))
      ensures got <==> cap.running_task == task && old(cap.running_task) == null
    {
      assert First(cap.returning) <= all;
      hide Cap.Fits, Cap.Is, Are, H.RecheckReturnStep, First;
      got := cap.RecheckReturn(task, all, s);
    }

    // ----- yieldCapability -----

    method StartYield(task: Task, c: H.CapId)
      requires Valid() && task in all && task.pc.Outside? && c in task.held && (!task.bound ==> task.cap == c)
      modifies this`s, this`history, caps, all
      ensures Valid() && Stepped(H.StartYield(task.id, c)) && !task.wakeup && task.pc == H.Yielding(c)
    {
      hide H.Inv, H.Run, H.Initial, H.Apply, H.Enabled, H.LoadOk, Valid, Begun, CapsFit, Listed, Linked;
      hide Touched, Acting, About, Cap.Fits;
      HolderReady(task, c);
      StartYieldRecord(task, c);
      s, history := H.Apply(s, H.StartYield(task.id, c)), history + [H.StartYield(task.id, c)];
      Done((c, task, H.StartYield(task.id, c)));
    }

    method StartYieldRecord(task: Task, c: H.CapId)
      requires Begun(c) && task in all && task.next == null && H.Enabled(s, H.StartYield(task.id, c))
      modifies task`wakeup, task`pc
      ensures Touched((c, task)) && caps[c].Fits(all, H.Apply(s, H.StartYield(task.id, c)))
      ensures !task.wakeup && task.pc == H.Yielding(c)
    {
      hide Cap.Queues;
      task.wakeup := false;
      task.pc := H.Yielding(c);
    }

    /** What a task holds is its own to give up. */
    lemma HolderReady(task: Task, c: H.CapId)
      requires Valid() && task in all && task.pc.Outside? && c in task.held
      ensures c < |caps| && task.id in s.tasks && s.tasks[task.id].pc.Outside? && c in s.tasks[task.id].held
      ensures s.tasks[task.id].bound == task.bound && s.tasks[task.id].cap == task.cap
      ensures (!task.bound ==> task.cap == c) ==> H.Enabled(s, H.StartYield(task.id, c))
      ensures About(s, H.StartYield(task.id, c), c)
      ensures Acting((c, task, task.id)) && Listed() && Begun(c) && task.next == null && caps[c].running_task == task
    {
      Reached(start, history, s);
      assert H.Holds(s, task.id, c);
      OutsideReady(task, c);
    }

    /** The load of a release, and the record of the task it names. */
    ghost predicate Offers(c: H.CapId, load: H.Load, bound: Task?)
      reads this, bound
    {
      && load.newWorker !in s.tasks
      && (load.runQueue.BoundHead? ==>
           bound != null && bound in all && bound.id == load.runQueue.task && bound.cap == c)
    }

    lemma Offered(c: H.CapId, load: H.Load, bound: Task?)
      requires Are(all, s) && Offers(c, load, bound)
      ensures H.LoadOk(s, c, load)
    {
    }

    lemma YieldReady(task: Task, c: H.CapId, load: H.Load, bound: Task?)
      requires Valid() && task in all && task.pc == H.Yielding(c) && Offers(c, load, bound)
      ensures c < |caps| && task.id in s.tasks && s.tasks[task.id].pc == H.Yielding(c) && c < |s.caps|
      ensures H.Enabled(s, H.FinishYield(task.id, load)) && About(s, H.FinishYield(task.id, load), c)
      ensures H.Apply(s, H.FinishYield(task.id, load)) == H.FinishYieldStep(s, task.id, load)
      ensures Acting((c, task, task.id)) && Listed() && Begun(c) && task.next == null
      ensures caps[c].running_task == task && caps[c].Unqueued(task)
    {
      Reached(start, history, s);
      assert H.PcOk(s, s.tasks[task.id]);
      assert H.Holds(s, task.id, c);
      Ready(c);
      Unlisted(task, c);
      Offered(c, load, bound);
    }

    /** releaseCapabilityAndQueueWorker. */
    method FinishYield(task: Task, c: H.CapId, load: H.Load, bound: Task?) returns (stop: bool)
      requires Valid() && task in all && task.pc == H.Yielding(c) && Offers(c, load, bound)
      modifies this`s, this`history, this`all, caps, all
      ensures Valid() && Stepped(H.FinishYield(task.id, load))
    {
      hide H.Inv, H.Run, H.Initial, H.Apply, H.Enabled, H.LoadOk, Valid, Begun, CapsFit, Listed, Linked;
      hide Touched, Acting, About, Cap.Fits;
      YieldReady(task, c, load, bound);
      stop := FinishYieldRecords(task, c, load, bound);
      s, history := H.Apply(s, H.FinishYield(task.id, load)), history + [H.FinishYield(task.id, load)];
      Done((c, task, H.FinishYield(task.id, load)));
    }

    method FinishYieldRecords(task: Task, c: H.CapId, load: H.Load, bound: Task?) returns (stop: bool)
      requires Begun(c) && task in all && task.next == null && task.pc == H.Yielding(c)
      requires caps[c].running_task == task && caps[c].Unqueued(task) && Offers(c, load, bound)
      requires task.id in s.tasks && s.tasks[task.id].pc == H.Yielding(c) && c < |s.caps|
      modifies this`all, caps, all
      ensures old(all) <= all && Touched((c, task)) && caps[c].Fits(all, H.FinishYieldStep(s, task.id, load))
    {
      hide Cap.Fits, H.FinishYieldStep, Cap.Unqueued;
      ghost var now;
      stop, now := YieldAndTell(task, c, load, bound);
      all := now;
    }

    method YieldAndTell(task: Task, c: H.CapId, load: H.Load, bound: Task?) returns (stop: bool, ghost now: set<Task>)
      requires Begun(c) && task in all && task.next == null && task.pc == H.Yielding(c)
      requires caps[c].running_task == task && caps[c].Unqueued(task) && Offers(c, load, bound)
      requires task.id in s.tasks && s.tasks[task.id].pc == H.Yielding(c) && c < |s.caps|
      modifies caps, all
      ensures CapsKept(c) && LinksKept((c, task)) && (task.next != null ==> Waits(task))
      ensures all <= now && forall t :: t in now && t !in all ==> t.next == null
      ensures caps[c].Fits(now, H.FinishYieldStep(s, task.id, load))
    {
      hide Cap.Fits, Offers, H.FinishYieldStep, Cap.Unqueued;
      stop, now := YieldOn(caps[c], task, load, bound);
    }

    lemma MayTell(cap: Cap, load: H.Load, bound: Task?)
      requires Within(cap.returning, all) && Within(cap.spare, all) && Offers(cap.no, load, bound)
      ensures load.newWorker !in s.tasks && cap.Tellable(if load.runQueue.BoundHead? then bound else null) <= all
      ensures load.runQueue.BoundHead? ==> bound != null && bound in all && bound.id == load.runQueue.task
    {
    }

    method YieldOn(cap: Cap, task: Task, load: H.Load, bound: Task?) returns (stop: bool, ghost now: set<Task>)
      requires cap.Fits(all, s) && Within(cap.returning, all) && Within(cap.spare, all) && maxSpareWorkers == s.maxSpare
      requires task in all && task.next == null && task.pc == H.Yielding(cap.no)
      requires cap.running_task == task && cap.Unqueued(task) && Offers(cap.no, load, bound)
      requires task.id in s.tasks && s.tasks[task.id].pc == H.Yielding(cap.no) && cap.no < |s.caps|
      modifies cap, all
      ensures (forall t :: t in all && t != task ==> t.next == old(t.next)) && (task.next != null ==> Waits(task))
      ensures all <= now && forall t :: t in now && t !in all ==> t.next == null
      ensures cap.Fits(now, H.FinishYieldStep(s, task.id, load))
    {
      hide Cap.Fits, Cap.Is, Are, Cap.Tellable, Cap.Unqueued, Within, Offers, H.Pass, H.LetGo, H.FinishYieldStep;
      MayTell(cap, load, bound);
      var given := if load.runQueue.BoundHead? then bound else null;
      var told;
      stop, told := cap.FinishYield(task, maxSpareWorkers, load, given, all, s);
      now := all + Any(told);
    }

    lemma RiseReady(task: Task, c: H.CapId)
      requires Valid() && task in all && task.pc == H.IdleCheck(c)
      ensures c < |caps| && H.Enabled(s, H.RecheckYield(task.id)) && About(s, H.RecheckYield(task.id), c)
      ensures task.id in s.tasks && s.tasks[task.id].pc == H.IdleCheck(c) && c < |s.caps|
      ensures H.Apply(s, H.RecheckYield(task.id)) == H.RecheckYieldStep(s, task.id)
      ensures Acting((c, task, task.id)) && Listed() && Begun(c) && (task.bound ==> task.next == null)
      ensures !task.bound && task.cap == c ==> caps[c].spare != []
    {
      Reached(start, history, s);
      assert H.PcOk(s, s.tasks[task.id]);
      H.RecheckNeverGivesNull(s, task.id);
      Ready(c);
    }

    method RecheckYield(task: Task, c: H.CapId) returns (got: bool)
      requires Valid() && task in all && task.pc == H.IdleCheck(c)
      modifies this`s, this`history, caps, all
      ensures Valid() && Stepped(H.RecheckYield(task.id))
      ensures c < |caps| && (got <==> caps[c].running_task == task && old(caps[c].running_task) == null)
    {
      hide H.Inv, H.Run, H.Initial, H.Apply, H.Enabled, H.LoadOk, Valid, Begun, CapsFit, Listed, Linked;
      hide Touched, Acting, About, Cap.Fits;
      RiseReady(task, c);
      got := RecheckYieldRecords(task, c);
      s, history := H.Apply(s, H.RecheckYield(task.id)), history + [H.RecheckYield(task.id)];
      Done((c, task, H.RecheckYield(task.id)));
    }

    method RecheckYieldRecords(task: Task, c: H.CapId) returns (got: bool)
      requires Begun(c) && task in all && task.pc == H.IdleCheck(c) && (task.bound ==> task.next == null)
      requires !task.bound && task.cap == c ==> caps[c].spare != []
      requires task.id in s.tasks && s.tasks[task.id].pc == H.IdleCheck(c) && c < |s.caps|
      modifies caps, all
      ensures Touched((c, task)) && caps[c].Fits(all, H.RecheckYieldStep(s, task.id))
      ensures got <==> caps[c].running_task == task && old(caps[c].running_task) == null
    {
      hide Cap.Fits, H.RecheckYieldStep;
      got := RiseOn(caps[c], task);
    }

    method RiseOn(cap: Cap, task: Task) returns (got: bool)
      requires cap.Fits(all, s) && Within(cap.spare, all) && task in all && (task.bound ==> task.next == null)
      requires task.pc == H.IdleCheck(cap.no) && (!task.bound && task.cap == cap.no ==> cap.spare != [])
      requires task.id in s.tasks && s.tasks[task.id].pc == H.IdleCheck(cap.no) && cap.no < |s.caps|
      modifies cap, all
      ensures forall t :: t in all && t != task ==> t in old(cap.spare) || t.next == old(t.next)
      ensures task.next != null ==> Waits(task)
      ensures cap.Fits(all, H.RecheckYieldStep(s, task.id))
      ensures got <==> cap.running_task == task && old(cap.running_task) == null
    {
      assert First(cap.spare) <= all;
      hide Cap.Fits, Cap.Is, Are, H.RecheckYieldStep, First;
      got := cap.RecheckYield(task, all, s);
    }

    // ----- releaseCapability, prodCapability, sendMessage, tryGrabCapability -----

    method Release(task: Task, c: H.CapId, always: bool, load: H.Load, bound: Task?)
      requires Valid() && task in all && task.pc.Outside? && c in task.held && Offers(c, load, bound)
      modifies this`s, this`history, this`all, caps, all
      ensures Valid() && Stepped(H.Release(task.id, c, always, load))
    {
      hide H.Inv, H.Run, H.Initial, H.Apply, H.Enabled, H.LoadOk, Valid, Begun, CapsFit, Listed, Linked;
      hide Touched, Acting, About, Cap.Fits;
      ReleaseReady(task, c, always, load, bound);
      ReleaseRecords(task, c, always, load, bound);
      s, history := H.Apply(s, H.Release(task.id, c, always, load)), history + [H.Release(task.id, c, always, load)];
      Done((c, task, H.Release(task.id, c, always, load)));
    }

    lemma ReleaseReady(task: Task, c: H.CapId, always: bool, load: H.Load, bound: Task?)
      requires Valid() && task in all && task.pc.Outside? && c in task.held && Offers(c, load, bound)
      ensures c < |caps| && c < |s.caps| && task.id in s.tasks
      ensures Acting((c, task, task.id)) && Listed() && Begun(c) && task.next == null && caps[c].running_task == task
      ensures H.Enabled(s, H.Release(task.id, c, always, load)) && About(s, H.Release(task.id, c, always, load), c)
      ensures H.Apply(s, H.Release(task.id, c, always, load)) == H.Pass(H.LetGo(s, c, task.id), c, always, load)
    {
      HolderReady(task, c);
      Ready(c);
      Offered(c, load, bound);
    }

    method ReleaseRecords(task: Task, c: H.CapId, always: bool, load: H.Load, bound: Task?)
      requires Begun(c) && task in all && task.next == null && caps[c].running_task == task && Offers(c, load, bound)
      requires task.id in s.tasks && c < |s.caps|
      modifies this`all, caps, all
      ensures old(all) <= all && Touched((c, task))
      ensures caps[c].Fits(all, H.Pass(H.LetGo(s, c, task.id), c, always, load))
    {
      hide Cap.Fits, H.Pass;
      all := ReleaseAndTell(task, c, always, load, bound);
    }

    method ReleaseAndTell(task: Task, c: H.CapId, always: bool, load: H.Load, bound: Task?)
      returns (ghost now: set<Task>)
      requires Begun(c) && task in all && task.next == null && caps[c].running_task == task && Offers(c, load, bound)
      requires task.id in s.tasks && c < |s.caps|
      modifies caps, all
      ensures CapsKept(c) && LinksKept((c, task)) && task.next == null
      ensures all <= now && forall t :: t in now && t !in all ==> t.next == null
      ensures caps[c].Fits(now, H.Pass(H.LetGo(s, c, task.id), c, always, load))
    {
      var given := if load.runQueue.BoundHead? then bound else null;
      hide Cap.Fits, Cap.Is, Are, Cap.Tellable, Within, Offers, H.Pass, H.LetGo;
      MayTell(caps[c], load, bound);
      var told := caps[c].Release(task, always, load, given, all, s);
      now := all + Any(told);
      assert CapsKept(c);
      assert LinksKept((c, task));
    }

    method Prod(task: Task, c: H.CapId, load: H.Load, bound: Task?)
      requires Valid() && task in all && task.pc.Outside? && c < |caps| && Offers(c, load, bound)
      modifies this`s, this`history, this`all, caps, all
      ensures Valid() && Stepped(H.Prod(task.id, c, load))
    {
      hide H.Inv, H.Run, H.Initial, H.Apply, H.Enabled, H.LoadOk, Valid, Begun, CapsFit, Listed, Linked;
      hide Touched, Acting, About, Cap.Fits;
      ProdReady(task, c, load, bound);
      ProdRecords(task, c, true, load, bound);
      s, history := H.Apply(s, H.Prod(task.id, c, load)), history + [H.Prod(task.id, c, load)];
      Done((c, task, H.Prod(task.id, c, load)));
    }

    method Send(task: Task, c: H.CapId, load: H.Load, bound: Task?)
      requires Valid() && task in all && task.pc.Outside? && c < |caps| && Offers(c, load, bound)
      modifies this`s, this`history, this`all, caps, all
      ensures Valid() && Stepped(H.Send(task.id, c, load))
    {
      hide H.Inv, H.Run, H.Initial, H.Apply, H.Enabled, H.LoadOk, Valid, Begun, CapsFit, Listed, Linked;
      hide Touched, Acting, About, Cap.Fits;
      ProdReady(task, c, load, bound);
      ProdRecords(task, c, false, load, bound);
      s, history := H.Apply(s, H.Send(task.id, c, load)), history + [H.Send(task.id, c, load)];
      Done((c, task, H.Send(task.id, c, load)));
    }

    ghost function Passed(c: H.CapId, always: bool, load: H.Load): H.State
      requires c < |s.caps|
      reads this`s
    {
      if s.caps[c].running == None then H.Pass(s, c, always, load) else s
    }

    lemma ProdReady(task: Task, c: H.CapId, load: H.Load, bound: Task?)
      requires Valid() && task in all && task.pc.Outside? && c < |caps| && Offers(c, load, bound)
      ensures c < |s.caps| && Acting((c, task, task.id)) && Listed() && Begun(c) && task.next == null
      ensures H.Enabled(s, H.Prod(task.id, c, load)) && About(s, H.Prod(task.id, c, load), c)
      ensures H.Enabled(s, H.Send(task.id, c, load)) && About(s, H.Send(task.id, c, load), c)
      ensures H.Apply(s, H.Prod(task.id, c, load)) == Passed(c, true, load)
      ensures H.Apply(s, H.Send(task.id, c, load)) == Passed(c, false, load)
    {
      OutsideReady(task, c);
      Ready(c);
      Offered(c, load, bound);
    }

    method ProdRecords(task: Task, c: H.CapId, always: bool, load: H.Load, bound: Task?)
      requires Begun(c) && task in all && task.next == null && Offers(c, load, bound) && c < |s.caps|
      modifies this`all, caps, all
      ensures old(all) <= all && Touched((c, task)) && caps[c].Fits(all, Passed(c, always, load))
    {
      hide Cap.Fits;
      all := ProdAndTell(task, c, always, load, bound);
    }

    method ProdAndTell(task: Task, c: H.CapId, always: bool, load: H.Load, bound: Task?) returns (ghost now: set<Task>)
      requires Begun(c) && task in all && task.next == null && Offers(c, load, bound) && c < |s.caps|
      modifies caps, all
      ensures CapsKept(c) && LinksKept((c, task)) && task.next == null
      ensures all <= now && forall t :: t in now && t !in all ==> t.next == null
      ensures caps[c].Fits(now, Passed(c, always, load))
    {
      var given := if load.runQueue.BoundHead? then bound else null;
      assert (caps[c].running_task == null) <==> (s.caps[c].running == None);
      hide Cap.Fits, Cap.Is, Are, Cap.Tellable, Within, Offers, H.Pass;
      MayTell(caps[c], load, bound);
      var told := caps[c].Prod(task, always, load, given, all, s);
      now := all + Any(told);
      assert CapsKept(c);
      assert LinksKept((c, task));
    }

    method TryGrab(task: Task, c: H.CapId) returns (got: bool)
      requires Valid() && task in all && task.pc.Outside? && c < |caps|
      modifies this`s, this`history, caps, all
      ensures Valid() && Stepped(H.TryGrab(task.id, c)) && (got <==> old(caps[c].running_task) == null)
      ensures c < |caps| && if got then caps[c].Has(task) && task.cap == c else unchanged(caps) && unchanged(all)
    {
      hide H.Inv, H.Run, H.Initial, H.Apply, Valid, Begun, CapsFit, Listed, Linked, Touched, Acting, Cap.Fits;
      hide Cap.Unqueued;
      OutsideReady(task, c);
      got := TryGrabRecords(task, c);
      s, history := H.Apply(s, H.TryGrab(task.id, c)), history + [H.TryGrab(task.id, c)];
      Done((c, task, H.TryGrab(task.id, c)));
    }

    method TryGrabRecords(task: Task, c: H.CapId) returns (got: bool)
      requires Begun(c) && task in all && task.next == null && H.Enabled(s, H.TryGrab(task.id, c))
      modifies caps, all
      ensures Touched((c, task)) && caps[c].Fits(all, H.Apply(s, H.TryGrab(task.id, c)))
      ensures got <==> old(caps[c].running_task) == null
      ensures if got then caps[c].Has(task) && task.cap == c else unchanged(caps) && unchanged(all)
    {
      hide Cap.Fits, H.TryGrabStep;
      got := caps[c].TryGrab(task, all, s);
    }

    // ----- what tasks do to themselves and to each other outside the capabilities -----

    /** The part of a wait loop under task->lock. */
    method Awake(task: Task) returns (at: H.CapId)
      requires Valid() && task in all && (task.pc.Returning? || task.pc.Idle?)
      modifies this`s, this`history, caps, all
      ensures Valid() && Stepped(H.Awake(task.id)) && at == old(task.cap) && !task.wakeup
      ensures task.pc == if old(task.pc).Returning? then H.ReturnCheck(at) else H.IdleCheck(at)
    {
      hide H.Inv, H.Run, H.Initial, H.Apply, H.Enabled, Valid, Begun, CapsFit, Listed, Linked, Touched;
      hide Acting, Cap.Fits;
      TaskReady(task);
      ghost var c := task.cap;
      at := AwakeRecord(task, c);
      s, history := H.Apply(s, H.Awake(task.id)), history + [H.Awake(task.id)];
      Done((c, task, H.Awake(task.id)));
    }

    lemma TaskReady(task: Task)
      requires Valid() && task in all
      ensures task.id in s.tasks && s.tasks[task.id].pc == task.pc && s.tasks[task.id].bound == task.bound
      ensures task.cap < |caps| == |s.caps| && Acting((task.cap, task, task.id)) && Listed() && Begun(task.cap)
      ensures task.pc.Returning? || task.pc.Idle? ==> H.Enabled(s, H.Awake(task.id))
      ensures task.pc.Outside? || task.bound ==> task.next == null || task.pc.Returning? || task.pc.ReturnCheck?
    {
      Reached(start, history, s);
      assert H.PcOk(s, s.tasks[task.id]);
      Ready(task.cap);
    }

    method AwakeRecord(task: Task, ghost c: H.CapId) returns (at: H.CapId)
      requires Begun(c) && task in all && H.Enabled(s, H.Awake(task.id)) && (task.next != null ==> Waits(task))
      modifies task`wakeup, task`pc
      ensures Touched((c, task)) && caps[c].Fits(all, H.Apply(s, H.Awake(task.id))) && at == task.cap && !task.wakeup
      ensures task.pc == if old(task.pc).Returning? then H.ReturnCheck(at) else H.IdleCheck(at)
    {
      assert task.Is(s);
      hide Cap.Queues, Are;
      at := task.Awake(all, s);
    }

    /** task->cap of a task outside is written by its owner, that of a bound task that waits in yieldCapability by
        migration. */
    method SetCap(task: Task, c: H.CapId)
      requires Valid() && task in all && c < |caps|
      requires task.pc.Outside? || (task.bound && (task.pc.Idle? || task.pc.IdleCheck?))
      modifies this`s, this`history, caps, all
      ensures Valid()
      ensures Stepped(if old(task.pc).Outside? then H.Retarget(task.id, c) else H.Migrate(task.id, c))
      ensures task.cap == c && task.pc == old(task.pc)
    {
      hide H.Inv, H.Run, H.Initial, H.Apply, H.Enabled, Valid, Begun, CapsFit, Listed, Linked, Touched;
      hide Acting, Cap.Fits;
      ghost var step := if task.pc.Outside? then H.Retarget(task.id, c) else H.Migrate(task.id, c);
      SetCapReady(task, c, step);
      SetCapRecord(task, c, step);
      s, history := H.Apply(s, step), history + [step];
      Done((c, task, step));
    }

    lemma SetCapReady(task: Task, c: H.CapId, step: H.Step)
      requires Valid() && task in all && c < |caps|
      requires task.pc.Outside? || (task.bound && (task.pc.Idle? || task.pc.IdleCheck?))
      requires step == if task.pc.Outside? then H.Retarget(task.id, c) else H.Migrate(task.id, c)
      ensures H.Enabled(s, step) && Acting((c, task, task.id)) && Listed() && Begun(c) && !Waits(task)
      ensures task.next == null
    {
      Ready(c);
    }

    method SetCapRecord(task: Task, c: H.CapId, ghost step: H.Step)
      requires Begun(c) && task in all && task.next == null && H.Enabled(s, step)
      requires step == H.Retarget(task.id, c) || step == H.Migrate(task.id, c)
      modifies task`cap
      ensures Touched((c, task)) && caps[c].Fits(all, H.Apply(s, step)) && task.cap == c
    {
      hide Cap.Queues;
      task.cap := c;
    }

    /** The task comes to serve a bound thread, or no longer does. */
    method SetBound(task: Task, bound: bool)
      requires Valid() && task in all && task.pc.Outside?
      modifies this`s, this`history, caps, all
      ensures Valid() && Stepped(H.SetBound(task.id, bound)) && task.bound == bound
    {
      hide H.Inv, H.Run, H.Initial, H.Apply, H.Enabled, Valid, Begun, CapsFit, Listed, Linked, Touched;
      hide Acting, Cap.Fits;
      TaskReady(task);
      BoundReady(task, bound);
      ghost var c := task.cap;
      SetBoundRecord(task, bound, c);
      s, history := H.Apply(s, H.SetBound(task.id, bound)), history + [H.SetBound(task.id, bound)];
      Done((c, task, H.SetBound(task.id, bound)));
    }

    lemma BoundReady(task: Task, bound: bool)
      requires task.id in s.tasks && s.tasks[task.id].pc.Outside?
      ensures H.Enabled(s, H.SetBound(task.id, bound))
      ensures H.Apply(s, H.SetBound(task.id, bound)) == H.SetTask(s, task.id, s.tasks[task.id].(bound := bound))
    {
    }

    method SetBoundRecord(task: Task, bound: bool, ghost c: H.CapId)
      requires Begun(c) && task in all && task.next == null && task.id in s.tasks
      modifies task`bound
      ensures Touched((c, task)) && task.bound == bound
      ensures caps[c].Fits(all, H.SetTask(s, task.id, s.tasks[task.id].(bound := bound)))
    {
      hide Cap.Queues;
      task.bound := bound;
    }

    /** A task record for a thread that has none. */
    method NewTask(id: H.TaskId, c: H.CapId, bound: bool) returns (task: Task)
      requires Valid() && c < |caps| && id !in s.tasks
      modifies this`s, this`history, this`all
      ensures Valid() && Stepped(H.NewTask(id, c, bound)) && fresh(task) && task in all && task.id == id
    {
      hide H.Inv, H.Run, H.Initial, H.Apply, H.Enabled, Valid, Begun, CapsFit, Listed, Linked, Touched;
      hide Acting, Cap.Fits;
      Ready(c);
      NewReady(id, c, bound);
      task := NewTaskRecord(id, c, bound);
      s, history := H.Apply(s, H.NewTask(id, c, bound)), history + [H.NewTask(id, c, bound)];
      Done((c, null, H.NewTask(id, c, bound)));
    }

    lemma NewReady(id: H.TaskId, c: H.CapId, bound: bool)
      requires id !in s.tasks && c < |s.caps|
      ensures H.Enabled(s, H.NewTask(id, c, bound)) && Acting((c, null, id))
      ensures H.Apply(s, H.NewTask(id, c, bound)) == H.SetTask(s, id, H.Task(H.Outside, false, c, bound, {}))
    {
    }

    method NewTaskRecord(id: H.TaskId, c: H.CapId, bound: bool) returns (task: Task)
      requires Begun(c) && id !in s.tasks
      modifies this`all
      ensures Touched((c, null)) && fresh(task) && task.id == id && all == old(all) + {task}
      ensures caps[c].Fits(all, H.SetTask(s, id, H.Task(H.Outside, false, c, bound, {})))
    {
      hide Cap.Queues;
      task := new Task(id, c);
      task.bound := bound;
      all := all + {task};
    }

    // ----- what holds of the records at all times -----

    /** A free capability whose returning queue is not empty has a task on it that is told or about to look. */
    lemma NoLostHandOff(c: H.CapId)
      requires Valid() && c < |caps| && caps[c].running_task == null && caps[c].returning != []
      ensures exists t :: t in caps[c].returning && (t.wakeup || t.pc == H.ReturnCheck(c))
    {
      assert CapFits(caps[c]) && caps[c].no == c;
      var ids := Ids(caps[c].returning);
      H.NoLostHandOff(start, history, s, c);
      hide H.Run, H.Initial, H.Inv;
      var id :| id in ids && id in s.tasks && (s.tasks[id].wakeup || s.tasks[id].pc == H.ReturnCheck(c));
      var i :| 0 <= i < |ids| && ids[i] == id;
      assert caps[c].returning[i].Is(s);
    }

    /** running_task is the one task whose code holds the capability. */
    lemma OneOwner(c: H.CapId, t: Task)
      requires Valid() && c < |caps| && t in all
      ensures caps[c].running_task == t <==> c in t.held
    {
      assert CapFits(caps[c]) && caps[c].no == c && t.Is(s);
      H.ExclusiveOwnership(start, history, s, c, t.id);
    }

    /** No task is on the queues of two capabilities, or on two queues of one, though all are linked by one field. */
    lemma OneQueue(c: H.CapId, d: H.CapId, t: Task)
      requires Valid() && c < |caps| && d < |caps|
      ensures t in caps[c].returning ==> t !in caps[d].spare
      ensures (t in caps[c].returning && t in caps[d].returning) || (t in caps[c].spare && t in caps[d].spare) ==>
          c == d
    {
      Ready(c);
      assert OnlyHere(caps[c].returning, c) && OnlyHere(caps[d].returning, d);
      assert OnlyHere(caps[c].spare, c) && OnlyHere(caps[d].spare, d);
      assert CapFits(caps[c]);
    }
  }
}
