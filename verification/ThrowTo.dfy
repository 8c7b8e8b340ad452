/**
 The locks on throwTo messages, after throwToMsg (kernel/rts/RaiseAsync.c) and executeMessage (kernel/rts/Messages.c).
 A state machine: each step is one locking, unlocking or test that a capability makes, in any interleaving.
 Messages are their addresses.
 */
module ThrowTo {
  type Cap = nat
  type Msg = nat

  /** The header word: the message is live, done with, or locked. */
  datatype Header = MSG_THROWTO | MSG_NULL | WHITEHOLE

  /** Where a capability is. */
  datatype Control =
    | Idle
    | Wants(m: Msg)                  // spins on m, holding no message
    | Null(m: Msg)                   // has found m done with, and unlocks it
    | Holds(msg: Msg)                // executes throwToMsg on msg
    | Spins(msg: Msg, m: Msg)        // and spins on the message m the target has sent
    | Both(msg: Msg, m: Msg)         // has locked m, which is live
    | BothNull(msg: Msg, m: Msg)     // has locked m, which is done with
    | Rewakes(msg: Msg, m: Msg)      // has unlocked it, and spins on it in tryWakeupThread
    | Rewoken(msg: Msg, m: Msg, i: Header)   // has locked it there, and found i
    | Leaving(msg: Msg)              // raises, has sent or has queued msg
    | Wakes(msg: Msg, m: Msg)        // while raising, wakes a thread that has sent m, and spins on it
    | Woke(msg: Msg, m: Msg, i: Header)      // has locked it there, and found i

  /** done: the messages ever overwritten with MSG_NULL. */
  datatype State = State(control: seq<Control>, header: map<Msg, Header>, done: set<Msg>)

  // ----- what a capability holds and waits for -----

  ghost predicate HasLock(k: Control, m: Msg) {
    match k
    case Idle => false
    case Wants(_) => false
    case Null(n) => m == n
    case Holds(msg) => m == msg
    case Spins(msg, _) => m == msg
    case Both(msg, n) => m == msg || m == n
    case BothNull(msg, n) => m == msg || m == n
    case Rewakes(msg, _) => m == msg
    case Rewoken(msg, n, _) => m == msg || m == n
    case Leaving(msg) => m == msg
    case Wakes(msg, _) => m == msg
    case Woke(msg, n, _) => m == msg || m == n
  }

  ghost predicate Spinning(k: Control) {
    k.Wants? || k.Spins? || k.Rewakes? || k.Wakes?
  }

  ghost predicate WaitsFor(s: State, c: Cap, d: Cap) {
    c < |s.control| && d < |s.control| && Spinning(s.control[c]) && HasLock(s.control[d], s.control[c].m)
  }

  // ----- the steps -----

  function Goto(s: State, c: Cap, k: Control): State
    requires c < |s.control|
  {
    s.(control := s.control[c := k])
  }

  function SetHeader(s: State, m: Msg, h: Header): State {
    s.(header := s.header[m := h], done := if h == MSG_NULL then s.done + {m} else s.done)
  }

  datatype Step =
    | Throw(msg: Msg)                // throwTo allocates the message, locked
    | Request(m: Msg)                // executeMessage, the queue of blocked exceptions, tryWakeupThread
    | Lock                           // the spin of lockClosure ends
    | Target(m: Msg)                 // throwToMsg finds the target blocked on its own message m
    | Decide                         // throwToMsg leaves otherwise: raises, sends or queues
    | Wake(m: Msg)                   // raiseAsync updates a thunk and wakes a thread blocked on its own message m
    | Unlock(h: Header)              // unlockClosure
    | Collect                        // a collection, which moves the messages about

  /** lockClosure and tryLockClosure on a free message. */
  ghost predicate Locks(s: State, c: Cap, m: Msg, live: Control, gone: Control, s': State)
    requires c < |s.control|
  {
    m in s.header && s.header[m] != WHITEHOLE
    && s' == SetHeader(Goto(s, c, if s.header[m].MSG_NULL? then gone else live), m, WHITEHOLE)
  }

  /** w: the pairs of a message held and a message spun on, for which threads are woken while an exception is raised. */
  ghost predicate Takes(w: (Msg, Msg) -> bool, s: State, c: Cap, step: Step, s': State) {
    c < |s.control| &&
    match (step, s.control[c])
    case (Throw(msg), Idle) => msg !in s.header && s' == SetHeader(Goto(s, c, Holds(msg)), msg, WHITEHOLE)
    case (Request(m), Idle) => m in s.header && s' == Goto(s, c, Wants(m))
    case (Lock, Wants(m)) => Locks(s, c, m, Holds(m), Null(m), s')
    case (Lock, Spins(msg, m)) => Locks(s, c, m, Both(msg, m), BothNull(msg, m), s')
    case (Lock, Rewakes(msg, m)) => Locks(s, c, m, Rewoken(msg, m, MSG_THROWTO), Rewoken(msg, m, MSG_NULL), s')
    case (Target(m), Holds(msg)) =>
      && m in s.header
      && (if m < msg then s' == Goto(s, c, Spins(msg, m))
          else if s.header[m] == WHITEHOLE then s' == Goto(s, c, Leaving(msg))
          else Locks(s, c, m, Both(msg, m), BothNull(msg, m), s'))
    case (Lock, Wakes(msg, m)) => Locks(s, c, m, Woke(msg, m, MSG_THROWTO), Woke(msg, m, MSG_NULL), s')
    case (Wake(m), Leaving(msg)) => m in s.header && w(msg, m) && s' == Goto(s, c, Wakes(msg, m))
    case (Unlock(h), Woke(msg, m, i)) => h == i && s' == SetHeader(Goto(s, c, Leaving(msg)), m, h)
    case (Decide, Holds(msg)) => s' == Goto(s, c, Leaving(msg))
    case (Unlock(h), Both(msg, m)) => h != WHITEHOLE && s' == SetHeader(Goto(s, c, Leaving(msg)), m, h)
    case (Unlock(h), BothNull(msg, m)) => h == MSG_NULL && s' == SetHeader(Goto(s, c, Rewakes(msg, m)), m, h)
    case (Unlock(h), Rewoken(msg, m, i)) => h == i && s' == SetHeader(Goto(s, c, Holds(msg)), m, h)
    case (Unlock(h), Leaving(msg)) => h != WHITEHOLE && s' == SetHeader(Goto(s, c, Idle), msg, h)
    case (Unlock(h), Null(m)) => h == MSG_NULL && s' == SetHeader(Goto(s, c, Idle), m, h)
    case _ => false
  }

  /** The collector runs when no capability is in the middle of anything; what the messages are afterwards is free. */
  ghost predicate Collects(s: State, s': State) {
    && s'.control == s.control
    && (forall c :: 0 <= c < |s.control| ==> s.control[c].Idle?)
    && (forall m :: m in s'.header ==> s'.header[m] != WHITEHOLE)
    && s'.done == set m | m in s'.header && s'.header[m].MSG_NULL?
  }

  ghost predicate Next(w: (Msg, Msg) -> bool, s: State, c: Cap, step: Step, s': State) {
    if step.Collect? then Collects(s, s') else Takes(w, s, c, step, s')
  }

  ghost predicate Init(s: State) {
    s.header == map[] && s.done == {} && forall c :: 0 <= c < |s.control| ==> s.control[c].Idle?
  }

  ghost predicate Run(w: (Msg, Msg) -> bool, t: seq<State>, steps: seq<(Cap, Step)>) {
    |t| == |steps| + 1 && Init(t[0]) && forall i :: 0 <= i < |steps| ==> Next(w, t[i], steps[i].0, steps[i].1, t[i + 1])
  }

  // ----- the invariant -----

  ghost predicate ControlOk(w: (Msg, Msg) -> bool, s: State, k: Control) {
    match k
    case Idle => true
    case Wants(m) => m in s.header
    case Null(m) => m in s.done
    case Holds(msg) => msg !in s.done
    case Spins(msg, m) => m < msg && m in s.header && msg !in s.done
    case Both(msg, m) => msg != m && msg !in s.done && m !in s.done
    case BothNull(msg, m) => msg != m && msg !in s.done && m in s.done
    case Rewakes(msg, m) => m in s.header && msg !in s.done && m in s.done
    case Rewoken(msg, m, i) => msg != m && msg !in s.done && m in s.done && i == MSG_NULL
    case Leaving(msg) => msg !in s.done
    case Wakes(msg, m) => m in s.header && msg !in s.done && w(msg, m)
    case Woke(msg, m, i) => msg != m && msg !in s.done && i == if m in s.done then MSG_NULL else MSG_THROWTO
  }

  ghost predicate Owned(control: seq<Control>, m: Msg) {
    exists c :: 0 <= c < |control| && HasLock(control[c], m)
  }

  ghost predicate Unique(control: seq<Control>) {
    forall c, d, m :: 0 <= c < |control| && 0 <= d < |control| && HasLock(control[c], m) && HasLock(control[d], m) ==>
      c == d
  }

  /** MSG_NULL is for ever. */
  ghost predicate Status(s: State) {
    && (forall m: Msg :: m in s.header && s.header[m] == MSG_NULL ==> m in s.done)
    && (forall m: Msg :: m in s.done ==> m in s.header && s.header[m] != MSG_THROWTO)
  }

  ghost predicate Inv(w: (Msg, Msg) -> bool, s: State) {
    && (forall c: Cap :: c < |s.control| ==> ControlOk(w, s, s.control[c]))
    && (forall m: Msg :: Owned(s.control, m) <==> m in s.header && s.header[m] == WHITEHOLE)
    && Unique(s.control)
    && Status(s)
  }

  /** Whose the locks are when one capability moves on. */
  lemma Ownership(control: seq<Control>, c: Cap, k: Control)
    requires Unique(control) && c < |control|
    requires forall m :: HasLock(k, m) && !HasLock(control[c], m) ==> !Owned(control, m)
    ensures Unique(control[c := k])
    ensures forall m :: Owned(control[c := k], m) <==> HasLock(k, m) || (Owned(control, m) && !HasLock(control[c], m))
  {
    hide HasLock;
    var after := control[c := k];
    forall m ensures Owned(after, m) <==> HasLock(k, m) || (Owned(control, m) && !HasLock(control[c], m)) {
      if HasLock(k, m) {
        assert HasLock(after[c], m);
      } else if Owned(control, m) && !HasLock(control[c], m) {
        var d :| 0 <= d < |control| && HasLock(control[d], m);
        assert HasLock(after[d], m);
      } else {
        forall d | 0 <= d < |after| ensures !HasLock(after[d], m) {
          assert d != c && HasLock(control[d], m) ==> Owned(control, m);
        }
      }
    }
  }

  /** A capability moves on and locks nothing. */
  lemma Moves(w: (Msg, Msg) -> bool, s: State, c: Cap, k: Control)
    requires Inv(w, s) && c < |s.control| && ControlOk(w, s, k)
    requires forall m :: HasLock(k, m) <==> HasLock(s.control[c], m)
    ensures Inv(w, Goto(s, c, k))
  {
    Ownership(s.control, c, k);
    var s' := Goto(s, c, k);
    assert forall m :: HasLock(k, m) ==> Owned(s.control, m);
    forall d | 0 <= d < |s.control| ensures ControlOk(w, s', s'.control[d]) { }
  }

  /** A capability locks the free message m and nothing else. */
  lemma LocksOne(w: (Msg, Msg) -> bool, s: State, c: Cap, k: Control, m: Msg)
    requires Inv(w, s) && c < |s.control| && (m in s.header ==> s.header[m] != WHITEHOLE)
    requires ControlOk(w, SetHeader(Goto(s, c, k), m, WHITEHOLE), k)
    requires forall n :: HasLock(k, n) <==> HasLock(s.control[c], n) || n == m
    ensures Inv(w, SetHeader(Goto(s, c, k), m, WHITEHOLE))
  {
    hide HasLock;
    assert !Owned(s.control, m);
    Ownership(s.control, c, k);
    var s' := SetHeader(Goto(s, c, k), m, WHITEHOLE);
    assert forall n :: HasLock(s.control[c], n) ==> Owned(s.control, n);
    assert forall n :: Owned(s'.control, n) <==> Owned(s.control, n) || n == m;
    hide Owned, Unique;
    forall d | 0 <= d < |s.control| ensures ControlOk(w, s', s'.control[d]) {
      assert ControlOk(w, s, s.control[d]);
    }
  }

  /** A capability unlocks m, leaving it with the header h, and nothing else. */
  lemma UnlocksOne(w: (Msg, Msg) -> bool, s: State, c: Cap, k: Control, m: Msg, h: Header)
    requires Inv(w, s) && c < |s.control| && HasLock(s.control[c], m) && h != WHITEHOLE
    requires (m in s.done ==> h == MSG_NULL)
    requires ControlOk(w, SetHeader(Goto(s, c, k), m, h), k)
    requires forall n :: HasLock(k, n) <==> HasLock(s.control[c], n) && n != m
    ensures Inv(w, SetHeader(Goto(s, c, k), m, h))
  {
    Ownership(s.control, c, k);
    var s' := SetHeader(Goto(s, c, k), m, h);
    assert forall n :: HasLock(s.control[c], n) ==> Owned(s.control, n);
    forall d | 0 <= d < |s.control| ensures ControlOk(w, s', s'.control[d]) {
      if d != c {
        assert ControlOk(w, s, s.control[d]) && !HasLock(s.control[d], m);
      }
    }
  }

  lemma InvStep(w: (Msg, Msg) -> bool, s: State, c: Cap, step: Step, s': State)
    requires Inv(w, s) && Next(w, s, c, step, s')
    ensures Inv(w, s')
  {
    hide Inv;
    if step.Collect? {
      Collected(w, s, s');
      return;
    }
    var k := s.control[c];
    ControlOfInv(w, s, c);
    match step {
      case Throw(msg) => LocksOne(w, s, c, Holds(msg), msg);
      case Request(m) => Moves(w, s, c, Wants(m));
      case Lock => LocksOne(w, s, c, s'.control[c], k.m);
      case Target(m) =>
        if m < k.msg || s.header[m] == WHITEHOLE {
          Moves(w, s, c, s'.control[c]);
        } else {
          LocksOne(w, s, c, s'.control[c], m);
        }
      case Wake(m) => Moves(w, s, c, Wakes(k.msg, m));
      case Decide => Moves(w, s, c, Leaving(k.msg));
      case Unlock(h) => UnlocksOne(w, s, c, s'.control[c], if k.Leaving? then k.msg else k.m, h);
    }
  }

  lemma Collected(w: (Msg, Msg) -> bool, s: State, s': State)
    requires Inv(w, s) && Collects(s, s')
    ensures Inv(w, s')
  {
  }

  lemma ControlOfInv(w: (Msg, Msg) -> bool, s: State, c: Cap)
    requires Inv(w, s) && c < |s.control|
    ensures ControlOk(w, s, s.control[c])
    ensures forall m :: HasLock(s.control[c], m) ==> m in s.header && s.header[m] == WHITEHOLE
    ensures Status(s)
  {
    forall m | HasLock(s.control[c], m) ensures m in s.header && s.header[m] == WHITEHOLE {
      assert Owned(s.control, m);
    }
  }

  lemma {:induction false} InvRun(w: (Msg, Msg) -> bool, t: seq<State>, steps: seq<(Cap, Step)>, i: nat)
    requires Run(w, t, steps) && i < |t|
    ensures Inv(w, t[i])
  {
    if i > 0 {
      InvRun(w, t, steps, i - 1);
      InvStep(w, t[i - 1], steps[i - 1].0, steps[i - 1].1, t[i]);
    }
  }

  // ----- no deadlock -----

  /** A wake-up on the way of an exception that spins on a message not below the one held. */
  ghost predicate Upward(k: Control) {
    k.Wakes? && k.msg <= k.m
  }

  /** Whoever is waited for and waits itself wants a smaller message, or waits for one that does not wait, or is an
      upward wake-up. */
  lemma Descends(w: (Msg, Msg) -> bool, s: State, c: Cap, d: Cap)
    requires Inv(w, s) && WaitsFor(s, c, d) && Spinning(s.control[d])
    ensures s.control[d].Spins? || s.control[d].Wakes? || s.control[d].Rewakes?
    ensures s.control[d].Spins? || s.control[d].Wakes? ==>
              s.control[d].msg == s.control[c].m && (s.control[d].m < s.control[c].m || Upward(s.control[d]))
    ensures s.control[d].Rewakes? ==> forall e: Cap :: WaitsFor(s, d, e) ==> !Spinning(s.control[e])
  {
    assert ControlOk(w, s, s.control[c]) && ControlOk(w, s, s.control[d]);
    forall e: Cap | WaitsFor(s, d, e) && s.control[d].Rewakes? ensures !Spinning(s.control[e]) {
      assert ControlOk(w, s, s.control[e]);
    }
  }

  ghost predicate Path(s: State, p: seq<Cap>) {
    |p| > 0 && forall i :: 0 <= i < |p| - 1 ==> WaitsFor(s, p[i], p[i + 1])
  }

  ghost predicate Circle(s: State, p: seq<Cap>) {
    Path(s, p) && |p| >= 2 && p[0] == p[|p| - 1]
  }

  ghost predicate NoneUpward(s: State, p: seq<Cap>) {
    forall c :: c in p && c < |s.control| ==> !Upward(s.control[c])
  }

  /** Along a path of capabilities that wait for each other and end in one that waits, the messages wanted decrease. */
  lemma {:induction false} Decreasing(w: (Msg, Msg) -> bool, s: State, p: seq<Cap>)
    requires Inv(w, s) && Path(s, p) && |p| >= 2
    requires exists e: Cap :: WaitsFor(s, p[|p| - 1], e) && Spinning(s.control[e])
    requires NoneUpward(s, p)
    ensures WaitsFor(s, p[0], p[1]) && s.control[p[|p| - 1]].m < s.control[p[0]].m
    decreases |p|
  {
    var n := |p| - 1;
    assert WaitsFor(s, p[n - 1], p[n]);
    Descends(w, s, p[n - 1], p[n]);
    assert p[n] in p;
    if n > 1 {
      Decreasing(w, s, p[..n]);
    }
  }

  /** In a reachable state a circle of capabilities that wait for each other has an upward wake-up in it. */
  lemma NoCycle(w: (Msg, Msg) -> bool, t: seq<State>, steps: seq<(Cap, Step)>, i: nat, p: seq<Cap>)
    requires Run(w, t, steps) && i < |t| && Circle(t[i], p)
    ensures exists c ::
        c in p && c < |t[i].control| && Upward(t[i].control[c]) && w(t[i].control[c].msg, t[i].control[c].m)
  {
    InvRun(w, t, steps, i);
    var s := t[i];
    if NoneUpward(s, p) {
      assert WaitsFor(s, p[0], p[1]);
      if |p| == 2 {
        Descends(w, s, p[0], p[1]);
      } else {
        assert WaitsFor(s, p[1], p[2]);
      }
      Decreasing(w, s, p);
    } else {
      var c :| c in p && c < |s.control| && Upward(s.control[c]);
      assert ControlOk(w, s, s.control[c]);
    }
  }

  /** Two capabilities, the messages a < b and a wake-up on b with a held: a circle. */
  function Deadlock(a: Msg, b: Msg): (t: seq<State>)
    ensures |t| == 6
  {
    var s0 := State([Idle, Idle], map[], {});
    var s1 := State([Holds(a), Idle], map[a := WHITEHOLE], {});
    var s2 := State([Holds(a), Holds(b)], map[a := WHITEHOLE, b := WHITEHOLE], {});
    var s3 := State([Leaving(a), Holds(b)], map[a := WHITEHOLE, b := WHITEHOLE], {});
    var s4 := State([Leaving(a), Spins(b, a)], map[a := WHITEHOLE, b := WHITEHOLE], {});
    var s5 := State([Wakes(a, b), Spins(b, a)], map[a := WHITEHOLE, b := WHITEHOLE], {});
    [s0, s1, s2, s3, s4, s5]
  }

  function DeadlockSteps(a: Msg, b: Msg): (steps: seq<(Cap, Step)>)
    ensures |steps| == 5
  {
    [(0, Throw(a)), (1, Throw(b)), (0, Decide), (1, Target(a)), (0, Wake(b))]
  }

  lemma DeadlockStep(w: (Msg, Msg) -> bool, a: Msg, b: Msg, i: nat)
    requires a < b && w(a, b) && i < 5
    ensures Next(w, Deadlock(a, b)[i], DeadlockSteps(a, b)[i].0, DeadlockSteps(a, b)[i].1, Deadlock(a, b)[i + 1])
  {
    if i == 0 {
    } else if i == 1 {
    } else if i == 2 {
    } else if i == 3 {
    }
  }

  lemma DeadlockRuns(w: (Msg, Msg) -> bool, a: Msg, b: Msg)
    requires a < b && w(a, b)
    ensures Run(w, Deadlock(a, b), DeadlockSteps(a, b)) && Circle(Deadlock(a, b)[5], [0, 1, 0])
  {
    var t := Deadlock(a, b);
    assert Init(t[0]) && WaitsFor(t[5], 0, 1) && WaitsFor(t[5], 1, 0);
    forall i | 0 <= i < 5
      ensures Next(w, t[i], DeadlockSteps(a, b)[i].0, DeadlockSteps(a, b)[i].1, t[i + 1])
    {
      DeadlockStep(w, a, b, i);
    }
    hide Next;
  }

  /** One capability that wakes a thread blocked on the message it holds. */
  lemma SelfDeadlockRuns(w: (Msg, Msg) -> bool, a: Msg) returns (t: seq<State>)
    requires w(a, a)
    ensures Run(w, t, [(0, Throw(a)), (0, Decide), (0, Wake(a))]) && |t| == 4 && Circle(t[3], [0, 0])
  {
    t := [State([Idle], map[], {}), State([Holds(a)], map[a := WHITEHOLE], {}),
          State([Leaving(a)], map[a := WHITEHOLE], {}), State([Wakes(a, a)], map[a := WHITEHOLE], {})];
    assert WaitsFor(t[3], 0, 0);
  }

  ghost predicate Descending(w: (Msg, Msg) -> bool) {
    forall a, b :: w(a, b) ==> b < a
  }

  ghost predicate CircleFree(w: (Msg, Msg) -> bool) {
    forall t: seq<State>, steps: seq<(Cap, Step)>, i: nat, p: seq<Cap> :: Run(w, t, steps) && i < |t| ==>
        !Circle(t[i], p)
  }

  /** So no run ever comes to a circle if and only if wake-ups on the way of an exception only spin on smaller
      messages. */
  lemma CircleFreeIff(w: (Msg, Msg) -> bool)
    ensures CircleFree(w) <==> Descending(w)
  {
    if Descending(w) {
      forall t: seq<State>, steps: seq<(Cap, Step)>, i: nat, p: seq<Cap> | Run(w, t, steps) && i < |t|
        ensures !Circle(t[i], p)
      {
        if Circle(t[i], p) { NoCycle(w, t, steps, i, p); }
      }
    } else {
      var a, b :| w(a, b) && a <= b;
      if a == b {
        var t := SelfDeadlockRuns(w, a);
      } else {
        DeadlockRuns(w, a, b);
      }
    }
  }

  ghost predicate CanMove(w: (Msg, Msg) -> bool, s: State, c: Cap) {
    exists step, s' :: Takes(w, s, c, step, s') && !step.Request? && !step.Throw?
  }

  /** Each capability can move or waits for another. */
  lemma Enabled(w: (Msg, Msg) -> bool, s: State, c: Cap)
    requires Inv(w, s) && c < |s.control| && !s.control[c].Idle?
    ensures CanMove(w, s, c) || exists d: Cap :: WaitsFor(s, c, d)
  {
    var k := s.control[c];
    assert ControlOk(w, s, k);
    if Spinning(k) {
      if s.header[k.m] == WHITEHOLE {
        assert Owned(s.control, k.m);
        var d :| 0 <= d < |s.control| && HasLock(s.control[d], k.m);
        assert WaitsFor(s, c, d);
      } else {
        var i := s.header[k.m];
        var next := match k
          case Wants(m) => if i.MSG_NULL? then Null(m) else Holds(m)
          case Spins(msg, m) => if i.MSG_NULL? then BothNull(msg, m) else Both(msg, m)
          case Rewakes(msg, m) => Rewoken(msg, m, i)
          case Wakes(msg, m) => Woke(msg, m, i)
          case _ => k;
        assert Takes(w, s, c, Lock, SetHeader(Goto(s, c, next), k.m, WHITEHOLE));
      }
    } else {
      var step := if k.Holds? then Decide
          else Unlock(if k.Leaving? then MSG_THROWTO else if k.Woke? then k.i else MSG_NULL);
      var next := match k
        case Holds(msg) => Goto(s, c, Leaving(msg))
        case Both(msg, m) => SetHeader(Goto(s, c, Leaving(msg)), m, MSG_NULL)
        case BothNull(msg, m) => SetHeader(Goto(s, c, Rewakes(msg, m)), m, MSG_NULL)
        case Rewoken(msg, m, _) => SetHeader(Goto(s, c, Holds(msg)), m, MSG_NULL)
        case Leaving(msg) => SetHeader(Goto(s, c, Idle), msg, MSG_THROWTO)
        case Woke(msg, m, i) => SetHeader(Goto(s, c, Leaving(msg)), m, i)
        case Null(m) => SetHeader(Goto(s, c, Idle), m, MSG_NULL)
        case _ => s;
      assert Takes(w, s, c, step, next);
    }
  }

  /** Then every capability that waits does so, through however many others, for one that can move. */
  lemma {:induction false} Unblocked(w: (Msg, Msg) -> bool, s: State, c: Cap) returns (p: seq<Cap>)
    requires Inv(w, s) && Descending(w) && c < |s.control| && !s.control[c].Idle?
    ensures Path(s, p) && p[0] == c && p[|p| - 1] < |s.control| && CanMove(w, s, p[|p| - 1])
    decreases if s.control[c].Rewakes? then 1 else if Spinning(s.control[c]) then s.control[c].m + 2 else 0
  {
    Enabled(w, s, c);
    if CanMove(w, s, c) {
      return [c];
    }
    var d: Cap :| WaitsFor(s, c, d);
    if Spinning(s.control[d]) {
      Descends(w, s, c, d);
      assert ControlOk(w, s, s.control[d]);
    }
    var q := Unblocked(w, s, d);
    p := [c] + q;
    assert forall i :: 0 < i < |p| ==> p[i] == q[i - 1];
  }
}
