/**
 Which messages a capability may spin on when it updates a thunk, after tryWakeupThread and wakeBlockingQueue
 (kernel/rts/Threads.c), and what this comes to for the locks of ThrowTo.  A state machine of the threads of one
 capability: what each is blocked on, the messages they have queued on black holes, and the wake-ups sent to them and
 not yet received.
 */
module WakeUps {
  import T = ThrowTo

  type ThreadId = nat
  type HoleId = nat

  datatype Why =
    | NotBlocked
    | OnBlackHole(k: nat)          // the k-th MSG_BLACKHOLE is its own
    | OnMsgThrowTo(m: T.Msg)       // the exception it has thrown is under way

  /** live: in a queue, and not revoked. */
  datatype MsgBlackHole = MsgBlackHole(tso: ThreadId, bh: HoleId, live: bool)

  /** wakeups: MSG_TRY_WAKEUP on the way; source: who has sent which throwTo message; done: those set to MSG_NULL. */
  datatype State = State(threads: seq<Why>, msgs: seq<MsgBlackHole>, wakeups: seq<ThreadId>,
                         source: map<T.Msg, ThreadId>, done: set<T.Msg>)

  datatype Step =
    | Block(t: ThreadId, bh: HoleId)     // the thread enters a black hole
    | Throw(t: ThreadId, m: T.Msg)       // throwTo, to a thread of another capability
    | Finish(m: T.Msg)                   // executeMessage there: the message is done, and its source is to be woken
    | Notice(t: ThreadId)                // throwToMsg finds the message of its target done, and wakes the target
    | Raise(t: ThreadId)                 // throwToMsg revokes what its target waits for
    | Deliver                            // executeMessage on a MSG_TRY_WAKEUP
    | Update(bh: HoleId)                 // the thunk gets its value, and its queue is woken

  /** tryWakeupThread for a thread of this capability. */
  function Woken(s: State, y: Why): Why {
    match y
    case NotBlocked => NotBlocked
    case OnBlackHole(_) => NotBlocked
    case OnMsgThrowTo(m) => if m in s.done then NotBlocked else y
  }

  predicate Queued(s: State, t: ThreadId, bh: HoleId) {
    exists k :: 0 <= k < |s.msgs| && s.msgs[k] == MsgBlackHole(t, bh, true)
  }

  predicate Enabled(s: State, step: Step) {
    match step
    case Block(t, _) => t < |s.threads| && s.threads[t].NotBlocked?
    case Throw(t, m) => t < |s.threads| && s.threads[t].NotBlocked? && m !in s.source
    case Finish(m) => m in s.source && m !in s.done
    case Notice(t) => t < |s.threads| && s.threads[t].OnMsgThrowTo? && s.threads[t].m in s.done
    case Raise(t) => t < |s.threads| && (s.threads[t].OnMsgThrowTo? ==> s.threads[t].m !in s.done)
    case Deliver => s.wakeups != [] && s.wakeups[0] < |s.threads|
    case Update(_) => true
  }

  function Apply(s: State, step: Step): State
    requires Enabled(s, step)
  {
    match step
    case Block(t, bh) =>
      s.(threads := s.threads[t := OnBlackHole(|s.msgs|)], msgs := s.msgs + [MsgBlackHole(t, bh, true)])
    case Throw(t, m) => s.(threads := s.threads[t := OnMsgThrowTo(m)], source := s.source[m := t])
    case Finish(m) => s.(done := s.done + {m}, wakeups := s.wakeups + [s.source[m]])
    case Notice(t) => s.(threads := s.threads[t := NotBlocked])
    case Raise(t) =>
      var s1 := s.(threads := s.threads[t := NotBlocked]);
      (match s.threads[t]
       case NotBlocked => s1
       case OnBlackHole(k) => if k < |s.msgs| then s1.(msgs := s.msgs[k := s.msgs[k].(live := false)]) else s1
       case OnMsgThrowTo(m) => s1.(done := s.done + {m}))
    case Deliver =>
      var t := s.wakeups[0];
      s.(threads := s.threads[t := Woken(s, s.threads[t])], wakeups := s.wakeups[1..])
    case Update(bh) =>
      s.(threads := seq(|s.threads|, t requires 0 <= t < |s.threads| =>
                        if Queued(s, t, bh) then Woken(s, s.threads[t]) else s.threads[t]),
         msgs := seq(|s.msgs|, k requires 0 <= k < |s.msgs| =>
                     if s.msgs[k].bh == bh then s.msgs[k].(live := false) else s.msgs[k]))
  }

  /** The throwTo messages that updating the black hole spins on: those of threads with a message in its queue. */
  ghost predicate SpinsOn(s: State, bh: HoleId, m: T.Msg) {
    exists k :: 0 <= k < |s.msgs| && s.msgs[k].live && s.msgs[k].bh == bh
      && s.msgs[k].tso < |s.threads| && s.threads[s.msgs[k].tso] == OnMsgThrowTo(m)
  }

  predicate Init(s: State) {
    s.msgs == [] && s.wakeups == [] && s.source == map[] && s.done == {} && forall t :: t in s.threads ==> t.NotBlocked?
  }

  ghost predicate Run(s: State, steps: seq<Step>, s': State)
    decreases |steps|
  {
    if steps == [] then s == s' else Enabled(s, steps[0]) && Run(Apply(s, steps[0]), steps[1..], s')
  }

  // ----- who is woken -----

  /** The thread may go on: it is on a black hole, or the exception it has thrown is done. */
  predicate MayGoOn(s: State, t: ThreadId)
    requires t < |s.threads|
  {
    s.threads[t].OnBlackHole? || (s.threads[t].OnMsgThrowTo? && s.threads[t].m in s.done)
  }

  /** A wake-up that arrives lets its thread go on if it may, and no other. */
  lemma DeliverWakes(s: State, t: ThreadId)
    requires Enabled(s, Deliver) && t < |s.threads|
    ensures var s' := Apply(s, Deliver);
            && s.wakeups == [s.wakeups[0]] + s'.wakeups && |s'.threads| == |s.threads| && s'.msgs == s.msgs
            && s'.threads[t] == if t == s.wakeups[0] && MayGoOn(s, t) then NotBlocked else s.threads[t]
  {
  }

  /** Updating a black hole empties its queue, and lets the threads with messages there go on if they may, and no
      others. */
  lemma UpdateWakes(s: State, bh: HoleId, t: ThreadId)
    requires t < |s.threads|
    ensures var s' := Apply(s, Update(bh));
            && |s'.threads| == |s.threads| && |s'.msgs| == |s.msgs| && s'.wakeups == s.wakeups && s'.done == s.done
            && (forall k :: 0 <= k < |s.msgs| ==>
                  if s.msgs[k].bh == bh then !s'.msgs[k].live else s'.msgs[k] == s.msgs[k])
            && var there := exists k :: 0 <= k < |s.msgs| && s.msgs[k].live && s.msgs[k].bh == bh && s.msgs[k].tso == t;
               s'.threads[t] == if there && MayGoOn(s, t) then NotBlocked else s.threads[t]
  {
    forall k | 0 <= k < |s.msgs|
      ensures s.msgs[k].live && s.msgs[k].bh == bh && s.msgs[k].tso == t <==> s.msgs[k] == MsgBlackHole(t, bh, true)
    { }
  }

  /** A thread on a black hole has its own message in the queue there. */
  ghost predicate Waiting(s: State) {
    forall t :: 0 <= t < |s.threads| && s.threads[t].OnBlackHole? ==>
      var k := s.threads[t].k;
      k < |s.msgs| && s.msgs[k].live && s.msgs[k].tso == t
  }

  lemma StepWaiting(s: State, step: Step)
    requires Waiting(s) && Enabled(s, step)
    ensures Waiting(Apply(s, step))
  {
    match step
    case Update(bh) =>
      var s' := Apply(s, step);
      forall t | 0 <= t < |s'.threads| && s'.threads[t].OnBlackHole?
        ensures var k := s'.threads[t].k;
                k < |s'.msgs| && s'.msgs[k].live && s'.msgs[k].tso == t
      {
        UpdateWakes(s, bh, t);
      }
    case _ =>
  }

  lemma {:induction false} RunWaiting(s: State, steps: seq<Step>, s': State)
    requires Waiting(s) && Run(s, steps, s')
    ensures Waiting(s')
    decreases |steps|
  {
    if steps != [] {
      StepWaiting(s, steps[0]);
      RunWaiting(Apply(s, steps[0]), steps[1..], s');
    }
  }

  /** Whatever has happened before, stale wake-ups or not, updating a black hole leaves no thread blocked on it. */
  lemma NobodyLeft(s: State, steps: seq<Step>, s1: State, bh: HoleId, t: ThreadId)
    requires Init(s) && Run(s, steps, s1) && t < |s1.threads|
    ensures var s' := Apply(s1, Update(bh));
            && t < |s'.threads|
            && (s'.threads[t].OnBlackHole? ==> s'.threads[t].k < |s'.msgs| && s'.msgs[s'.threads[t].k].bh != bh)
            && (s1.threads[t].OnBlackHole? && s1.threads[t].k < |s1.msgs| && s1.msgs[s1.threads[t].k].bh == bh ==>
                  s'.threads[t] == NotBlocked)
  {
    assert forall u :: 0 <= u < |s.threads| ==> s.threads[u] in s.threads;
    RunWaiting(s, steps, s1);
    StepWaiting(s1, Update(bh));
    UpdateWakes(s1, bh, t);
  }

  // ----- without stale wake-ups -----

  /** A wake-up arrives when the thread it was for has gone on, and is blocked on a black hole. */
  predicate Stale(s: State, step: Step) {
    step.Deliver? && s.wakeups != [] && s.wakeups[0] < |s.threads| && s.threads[s.wakeups[0]].OnBlackHole?
  }

  ghost predicate NoneStale(s: State, steps: seq<Step>, s': State)
    requires Run(s, steps, s')
    decreases |steps|
  {
    steps != [] ==> !Stale(s, steps[0]) && NoneStale(Apply(s, steps[0]), steps[1..], s')
  }

  /** Every message in a queue is that of a thread blocked on it. */
  ghost predicate Attached(s: State) {
    forall k :: 0 <= k < |s.msgs| && s.msgs[k].live ==>
      s.msgs[k].tso < |s.threads| && s.threads[s.msgs[k].tso] == OnBlackHole(k)
  }

  lemma StepAttached(s: State, step: Step)
    requires Attached(s) && Enabled(s, step) && !Stale(s, step)
    ensures Attached(Apply(s, step))
  {
    match step
    case Update(bh) =>
      var s' := Apply(s, step);
      forall k | 0 <= k < |s'.msgs| && s'.msgs[k].live
        ensures s'.threads[s'.msgs[k].tso] == OnBlackHole(k)
      {
        assert s'.msgs[k] == s.msgs[k];
        assert forall j :: 0 <= j < |s.msgs| && s.msgs[j] == MsgBlackHole(s.msgs[k].tso, bh, true) ==> j == k;
      }
    case _ =>
  }

  lemma {:induction false} RunAttached(s: State, steps: seq<Step>, s': State)
    requires Attached(s) && Run(s, steps, s') && NoneStale(s, steps, s')
    ensures Attached(s')
    decreases |steps|
  {
    if steps != [] {
      StepAttached(s, steps[0]);
      RunAttached(Apply(s, steps[0]), steps[1..], s');
    }
  }

  /** As long as no wake-up is stale, updating a thunk spins on no message. */
  lemma NoSpin(s: State, steps: seq<Step>, s': State, bh: HoleId, m: T.Msg)
    requires Init(s) && Run(s, steps, s') && NoneStale(s, steps, s')
    ensures !SpinsOn(s', bh, m)
  {
    RunAttached(s, steps, s');
  }

  // ----- with one -----

  /** A thread throws an exception; that this is done is noticed before the wake-up for it arrives, and the thread
      blocks on a black hole.  Then the wake-up arrives: the thread goes on, and blocks there again, with a second
      message.  An exception revokes only that one.  Then the thread throws m. */
  function StaleSteps(x: T.Msg, m: T.Msg): seq<Step> {
    [Throw(0, x), Finish(x), Notice(0), Block(0, 0), Deliver, Block(0, 0), Raise(0), Throw(0, m)]
  }

  lemma RunOne(s: State, step: Step, steps: seq<Step>, s': State)
    requires Enabled(s, step) && Run(Apply(s, step), steps, s')
    ensures Run(s, [step] + steps, s')
  {
    assert ([step] + steps)[1..] == steps;
  }

  /** Up to the wake-up that is stale. */
  lemma StaleSoon(s: State, x: T.Msg, s4: State, steps: seq<Step>, s': State)
    requires s == State([NotBlocked], [], [], map[], {})
    requires s4 == State([OnBlackHole(0)], [MsgBlackHole(0, 0, true)], [0], map[x := 0], {x}) && Run(s4, steps, s')
    ensures Run(s, [Throw(0, x)] + ([Finish(x)] + ([Notice(0)] + ([Block(0, 0)] + steps))), s')
  {
    var s1 := Apply(s, Throw(0, x));
    var s2 := Apply(s1, Finish(x));
    var s3 := Apply(s2, Notice(0));
    assert Apply(s3, Block(0, 0)) == s4;
    RunOne(s3, Block(0, 0), steps, s');
    hide Run;
    RunOne(s2, Notice(0), [Block(0, 0)] + steps, s');
    RunOne(s1, Finish(x), [Notice(0)] + ([Block(0, 0)] + steps), s');
    RunOne(s, Throw(0, x), [Finish(x)] + ([Notice(0)] + ([Block(0, 0)] + steps)), s');
  }

  /** From there on. */
  lemma StaleThen(s4: State, x: T.Msg, m: T.Msg, s': State)
    requires s4 == State([OnBlackHole(0)], [MsgBlackHole(0, 0, true)], [0], map[x := 0], {x}) && x != m
    requires s' == State([OnMsgThrowTo(m)], [MsgBlackHole(0, 0, true), MsgBlackHole(0, 0, false)], [],
        map[x := 0, m := 0], {x})
    ensures Run(s4, [Deliver] + ([Block(0, 0)] + ([Raise(0)] + [Throw(0, m)])), s')
  {
    var s5 := Apply(s4, Deliver);
    var s6 := Apply(s5, Block(0, 0));
    var s7 := Apply(s6, Raise(0));
    assert Apply(s7, Throw(0, m)) == s';
    RunOne(s7, Throw(0, m), [], s');
    assert [Throw(0, m)] + [] == [Throw(0, m)];
    hide Run;
    RunOne(s6, Raise(0), [Throw(0, m)], s');
    RunOne(s5, Block(0, 0), [Raise(0)] + [Throw(0, m)], s');
    RunOne(s4, Deliver, [Block(0, 0)] + ([Raise(0)] + [Throw(0, m)]), s');
  }

  lemma StaleRuns(x: T.Msg, m: T.Msg) returns (s: State, s': State)
    requires x != m
    ensures Init(s) && Run(s, StaleSteps(x, m), s') && SpinsOn(s', 0, m)
  {
    s := State([NotBlocked], [], [], map[], {});
    var s4 := State([OnBlackHole(0)], [MsgBlackHole(0, 0, true)], [0], map[x := 0], {x});
    s' := State([OnMsgThrowTo(m)], [MsgBlackHole(0, 0, true), MsgBlackHole(0, 0, false)], [], map[x := 0, m := 0], {x});
    assert s'.msgs[0].live && s'.msgs[0].tso == 0;
    hide Run;
    var later := [Deliver] + ([Block(0, 0)] + ([Raise(0)] + [Throw(0, m)]));
    StaleThen(s4, x, m, s');
    StaleSoon(s, x, s4, later, s');
    assert StaleSteps(x, m) == [Throw(0, x)] + ([Finish(x)] + ([Notice(0)] + ([Block(0, 0)] + later)));
  }

  // ----- what this comes to for the locks -----

  /** Some run, with stale wake-ups or without, ends where updating some black hole spins on m. */
  ghost predicate Wanted(stale: bool, m: T.Msg) {
    exists s: State, steps: seq<Step>, s': State, bh: HoleId ::
      Init(s) && Run(s, steps, s') && (stale || NoneStale(s, steps, s')) && SpinsOn(s', bh, m)
  }

  /** What threads are blocked on has nothing to do with the message under which a thunk of theirs is updated. */
  ghost predicate Wakes(w: (T.Msg, T.Msg) -> bool, stale: bool) {
    forall a, b :: w(a, b) <==> Wanted(stale, b)
  }

  lemma WantedIff(stale: bool, m: T.Msg)
    ensures Wanted(stale, m) <==> stale
  {
    if stale {
      var s, s' := StaleRuns(m + 1, m);
    } else if Wanted(stale, m) {
      var s: State, steps: seq<Step>, s': State, bh: HoleId :|
        Init(s) && Run(s, steps, s') && (stale || NoneStale(s, steps, s')) && SpinsOn(s', bh, m);
      NoSpin(s, steps, s', bh, m);
    }
  }

  /** With the wake-ups that threads in these states give rise to, no run of the capabilities comes to a circle if and
      only if no wake-up is stale. */
  lemma CircleFreeIffNoneStale(w: (T.Msg, T.Msg) -> bool, stale: bool)
    requires Wakes(w, stale)
    ensures T.CircleFree(w) <==> !stale
  {
    T.CircleFreeIff(w);
    forall b ensures Wanted(stale, b) <==> stale { WantedIff(stale, b); }
    assert w(0, 0) <==> Wanted(stale, 0);
  }
}
