/**
 The other branches of releaseCapability_ in kernel/rts/Capability.c: that a spare worker, or the task of a bound
 thread, has been told of a free capability is not forgotten until somebody has it.
 */
module Telling {
  import opened Base
  import opened HandOff

  /** t waits for c in yieldCapability, and has been told or is past its wait and about to look. */
  predicate Told(s: State, t: TaskId, c: CapId) {
    && t in s.tasks && s.tasks[t].cap == c
    && (s.tasks[t].pc == IdleCheck(c) || ((s.tasks[t].pc.Idle? || s.tasks[t].pc.IdleCheck?) && s.tasks[t].wakeup))
  }

  ghost predicate SpareTold(s: State, c: CapId)
    requires c < |s.caps|
  {
    exists t :: t in s.caps[c].spare && Told(s, t, c)
  }

  predicate Free(s: State, c: CapId) {
    c < |s.caps| && s.caps[c].running == None
  }

  /** Whom releaseCapability_ tells, when all has been well but for the capability released: the first to return; or
      else the task of the bound thread at the head of the run queue; or else, if there is work for it, the first spare
      worker. */
  lemma PassTells(s: State, c: CapId, always: bool, load: Load)
    requires c < |s.caps| && InvBut(s, c) && s.caps[c].running == None && LoadOk(s, c, load)
    ensures var (k, s') := (s.caps[c], Pass(s, c, always, load));
      && c < |s'.caps|
      && if k.returning != [] then k.returning[0] in s'.tasks && s'.tasks[k.returning[0]].wakeup
         else if load.syncPending then s' == s
         else if load.runQueue.BoundHead? then
           && load.runQueue.task in s'.tasks && s'.tasks[load.runQueue.task].wakeup
           && (var p := s.tasks[load.runQueue.task].pc; p.Idle? || p.IdleCheck? ==> Told(s', load.runQueue.task, c))
         else if k.spare == [] then
           if load.shuttingDown && load.runQueue.Empty? then s' == s else s'.caps[c].running == Some(load.newWorker)
         else if always || !load.runQueue.Empty? || load.otherWork then SpareTold(s', c)
         else s' == s
  {
    assert QueuesOk(s, c);
    var k := s.caps[c];
    if k.returning != [] {
      assert k.returning[0] in k.returning;
    } else if k.spare != [] {
      assert k.spare[0] in k.spare;
      assert IsSpare(s.tasks[k.spare[0]], c);
      var s1 := Give(s, Head(k.spare));
      assert k.spare[0] in s1.caps[c].spare && Told(s1, k.spare[0], c);
    }
  }

  // ----- a task that does not act -----

  lemma GiveStays(s: State, o: Option<TaskId>, t: TaskId, c: CapId)
    requires Told(s, t, c)
    ensures Told(Give(s, o), t, c) && Give(s, o).tasks[t].bound == s.tasks[t].bound
  {
  }

  lemma PassStays(s: State, d: CapId, always: bool, load: Load, t: TaskId, c: CapId)
    requires Told(s, t, c) && d < |s.caps| && load.newWorker !in s.tasks
    ensures Told(Pass(s, d, always, load), t, c) && Pass(s, d, always, load).tasks[t].bound == s.tasks[t].bound
  {
  }

  lemma OtherStays(s: State, step: Step, t: TaskId, c: CapId)
    requires Enabled(s, step) && Told(s, t, c) && t != step.t
    ensures Told(Apply(s, step), t, c) && Apply(s, step).tasks[t].bound == s.tasks[t].bound
  {
    match step
    case FinishYield(u, load) =>
      var d := s.tasks[u].pc.from;
      var s1 := Requeued(s, d, u, s.caps[d].returning, SpareAfterYield(s, u),
                         if s.tasks[u].bound || |s.caps[d].spare| < s.maxSpare then Idle else Stopped);
      hide Pass;
      PassStays(LetGo(s1, d, u), d, false, load, t, c);
    case Release(u, d, always, load) =>
      hide Pass;
      PassStays(LetGo(s, d, u), d, always, load, t, c);
    case Prod(_, d, load) =>
      hide Pass;
      PassStays(s, d, true, load, t, c);
    case Send(_, d, load) =>
      hide Pass;
      PassStays(s, d, false, load, t, c);
    case RecheckReturn(u) =>
    case RecheckYield(u) =>
    case _ =>
  }

  // ----- spare workers -----

  lemma PassKeepsSpare(s: State, d: CapId, always: bool, load: Load, c: CapId)
    requires c < |s.caps| && d < |s.caps|
    ensures var s' := Pass(s, d, always, load); |s'.caps| == |s.caps| && s'.caps[c].spare == s.caps[c].spare
  {
  }

  /** The spare workers of a free capability stay the same while it is free. */
  lemma SpareStays(s: State, step: Step, c: CapId)
    requires Inv(s) && Enabled(s, step) && Free(s, c)
    ensures |Apply(s, step).caps| == |s.caps|
    ensures Free(Apply(s, step), c) ==> Apply(s, step).caps[c].spare == s.caps[c].spare
  {
    hide QueuesOk, IsSpare, IsReturner, HandedOff;
    match step
    case FinishYield(u, load) =>
      var d := s.tasks[u].pc.from;
      assert PcOk(s, s.tasks[u]);
      assert Holds(s, u, d);
      var s1 := Requeued(s, d, u, s.caps[d].returning, SpareAfterYield(s, u),
                         if s.tasks[u].bound || |s.caps[d].spare| < s.maxSpare then Idle else Stopped);
      hide Pass;
      PassKeepsSpare(LetGo(s1, d, u), d, false, load, c);
    case Release(u, d, always, load) =>
      hide Pass;
      PassKeepsSpare(LetGo(s, d, u), d, always, load, c);
    case Prod(_, d, load) =>
      hide Pass;
      PassKeepsSpare(s, d, true, load, c);
    case Send(_, d, load) =>
      hide Pass;
      PassKeepsSpare(s, d, false, load, c);
    case _ =>
  }

  /** A spare worker that has been told acts: it is still told, or has taken the capability or told the first. */
  lemma ToldActs(s: State, step: Step, c: CapId)
    requires Inv(s) && Enabled(s, step) && Free(s, c) && step.t in s.caps[c].spare && Told(s, step.t, c)
    ensures var s' := Apply(s, step);
      |s'.caps| == |s.caps| && (s'.caps[c].running == None ==> SpareTold(s', c))
  {
    var t, q := step.t, s.caps[c].spare;
    assert QueuesOk(s, c) && PcOk(s, s.tasks[t]) && IsSpare(s.tasks[t], c);
    match step
    case RecheckYield(_) =>
      if q[0] != t {
        assert q[0] in q;
        assert IsSpare(s.tasks[q[0]], c);
        assert Told(Apply(s, step), q[0], c);
      }
    case Awake(_) =>
      assert Told(Apply(s, step), t, c);
    case _ =>
  }

  lemma SpareStaysTold(s: State, step: Step, c: CapId)
    requires Inv(s) && Enabled(s, step) && Free(s, c) && SpareTold(s, c)
    ensures var s' := Apply(s, step); |s'.caps| == |s.caps| && (s'.caps[c].running == None ==> SpareTold(s', c))
  {
    var t :| t in s.caps[c].spare && Told(s, t, c);
    hide Apply, Enabled, Inv, Told;
    SpareStays(s, step, c);
    if t == step.t {
      ToldActs(s, step, c);
    } else {
      OtherStays(s, step, t, c);
    }
  }

  /** c is free in every state of the run. */
  ghost predicate FreeThroughout(s: State, steps: seq<Step>, s': State, c: CapId)
    requires Run(s, steps, s')
    decreases |steps|
  {
    Free(s, c) && (steps != [] ==> FreeThroughout(Apply(s, steps[0]), steps[1..], s', c))
  }

  /** Over any run: once a release has told a spare worker, and until somebody has the capability, one of those waiting
      has been told or is about to look. */
  lemma {:induction false} SpareNotForgotten(s: State, steps: seq<Step>, s': State, c: CapId)
    requires Inv(s) && Run(s, steps, s') && FreeThroughout(s, steps, s', c) && SpareTold(s, c)
    ensures Free(s', c) && SpareTold(s', c)
    decreases |steps|
  {
    if steps != [] {
      StepKeeps(s, steps[0]);
      SpareStaysTold(s, steps[0], c);
      SpareNotForgotten(Apply(s, steps[0]), steps[1..], s', c);
    }
  }

  // ----- the task of a bound thread -----

  lemma BoundStaysTold(s: State, step: Step, c: CapId, t: TaskId)
    requires Inv(s) && Enabled(s, step) && Free(s, c) && Told(s, t, c) && s.tasks[t].bound
    requires !(step.Migrate? && step.t == t)
    ensures var s' := Apply(s, step);
      |s'.caps| == |s.caps| && (s'.caps[c].running == None ==> Told(s', t, c) && s'.tasks[t].bound)
  {
    SpareStays(s, step, c);
    if t != step.t {
      OtherStays(s, step, t, c);
    }
  }

  /** Over any run: once a release has told the task of a bound thread that waits, and until somebody has the
      capability, that task has been told or is about to look, unless its thread is migrated. */
  lemma {:induction false} BoundNotForgotten(s: State, steps: seq<Step>, s': State, c: CapId, t: TaskId)
    requires Inv(s) && Run(s, steps, s') && FreeThroughout(s, steps, s', c)
    requires Told(s, t, c) && s.tasks[t].bound
    requires forall i :: 0 <= i < |steps| ==> !(steps[i].Migrate? && steps[i].t == t)
    ensures Free(s', c) && Told(s', t, c) && s'.tasks[t].bound
    decreases |steps|
  {
    if steps != [] {
      StepKeeps(s, steps[0]);
      BoundStaysTold(s, steps[0], c, t);
      BoundNotForgotten(Apply(s, steps[0]), steps[1..], s', c, t);
    }
  }

  // ----- the telling leads to somebody having it -----

  lemma RunOne(s: State, step: Step)
    requires Enabled(s, step)
    ensures Run(s, [step], Apply(s, step))
  {
    assert [step][1..] == [];
    assert Run(Apply(s, step), [], Apply(s, step));
  }

  /** The task ends its wait, and before that a look at another capability that it may be about to take. */
  lemma Wakes(s: State, c: CapId, t: TaskId) returns (steps: seq<Step>, s': State)
    requires Free(s, c) && Told(s, t, c) && PcOk(s, s.tasks[t])
    ensures Run(s, steps, s') && |steps| <= if s.tasks[t].bound then 2 else 1
    ensures forall i :: 0 <= i < |steps| ==> steps[i] == Awake(t) || steps[i] == RecheckYield(t)
    ensures t in s'.tasks && s'.caps == s.caps
    ensures s'.tasks == s.tasks[t := s.tasks[t].(pc := IdleCheck(c), wakeup := s'.tasks[t].wakeup)]
  {
    steps, s' := [], s;
    if s'.tasks[t].pc.IdleCheck? && s'.tasks[t].pc.at != c {
      RunOne(s', RecheckYield(t));
      steps, s' := [RecheckYield(t)], Apply(s', RecheckYield(t));
    }
    if s'.tasks[t].pc.Idle? {
      RunOne(s', Awake(t));
      RunConcat(s, steps, s', [Awake(t)], Apply(s', Awake(t)));
      steps, s' := steps + [Awake(t)], Apply(s', Awake(t));
    }
  }

  lemma LastLook(s: State, c: CapId, t: TaskId, q: seq<TaskId>)
    requires Free(s, c) && t in s.tasks && s.tasks[t].pc == IdleCheck(c) && s.tasks[t].cap == c && q == s.caps[c].spare
    requires !s.tasks[t].bound ==> t in q && q[0] in s.tasks && IsSpare(s.tasks[q[0]], c)
    ensures Enabled(s, RecheckYield(t)) && |RecheckYieldStep(s, t).caps| == |s.caps|
    ensures t in RecheckYieldStep(s, t).tasks
    ensures s.tasks[t].bound ==> RecheckYieldStep(s, t).caps[c].running == Some(t)
    ensures var s' := RecheckYieldStep(s, t);
      !s.tasks[t].bound ==> if q[0] == t then s'.caps[c].running == Some(t) && s'.caps[c].spare == q[1..]
                            else s'.caps[c] == s.caps[c] && Told(s', q[0], c) && !s'.tasks[q[0]].bound
  {
  }

  /** A task about to look, or told, looks. */
  lemma Looks(s: State, c: CapId, t: TaskId) returns (steps: seq<Step>, s': State)
    requires Inv(s) && Free(s, c) && Told(s, t, c)
    ensures Run(s, steps, s') && |steps| <= 3 && |s'.caps| == |s.caps| && t in s'.tasks
    ensures forall i :: 0 <= i < |steps| ==> steps[i] == Awake(t) || steps[i] == RecheckYield(t)
    ensures s.tasks[t].bound ==> s'.caps[c].running == Some(t)
    ensures !s.tasks[t].bound ==> |steps| <= 2 && t in s.caps[c].spare
    ensures var q := s.caps[c].spare;
      !s.tasks[t].bound ==> if q[0] == t then s'.caps[c].running == Some(t) && s'.caps[c].spare == q[1..]
                            else s'.caps[c] == s.caps[c] && Told(s', q[0], c) && !s'.tasks[q[0]].bound
  {
    var q := s.caps[c].spare;
    assert QueuesOk(s, c) && PcOk(s, s.tasks[t]);
    if !s.tasks[t].bound {
      assert IsSpare(s.tasks[t], c);
      assert q[0] in q;
    }
    var s1;
    steps, s1 := Wakes(s, c, t);
    hide Run, Inv, QueuesOk, RecheckYieldStep;
    LastLook(s1, c, t, q);
    s' := RecheckYieldStep(s1, t);
    RunOne(s1, RecheckYield(t));
    RunConcat(s, steps, s1, [RecheckYield(t)], s');
    steps := steps + [RecheckYield(t)];
  }

  /** From a state with a free capability and a spare worker told, two tasks acting alone, at most four times, make the
      first spare worker the owner. */
  lemma SpareCompletes(s: State, c: CapId) returns (steps: seq<Step>, s': State)
    requires Inv(s) && Free(s, c) && SpareTold(s, c)
    ensures Run(s, steps, s') && |steps| <= 4
    ensures forall i :: 0 <= i < |steps| ==>
      steps[i].t in s.caps[c].spare && (steps[i].Awake? || steps[i].RecheckYield?)
    ensures |s'.caps| == |s.caps|
    ensures s'.caps[c].running == Some(s.caps[c].spare[0]) && s'.caps[c].spare == s.caps[c].spare[1..]
  {
    var q := s.caps[c].spare;
    var t :| t in q && Told(s, t, c);
    assert QueuesOk(s, c) && IsSpare(s.tasks[t], c);
    hide QueuesOk, Told;
    steps, s' := Looks(s, c, t);
    if q[0] != t {
      var first, s1 := steps, s';
      RunKeepsInv(s, first, s1);
      assert q[0] in q;
      steps, s' := Looks(s1, c, q[0]);
      RunConcat(s, first, s1, steps, s');
      steps := first + steps;
    }
  }
}
