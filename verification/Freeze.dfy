/**
 What raiseAsync (kernel/rts/RaiseAsync.c) does to a stack, and what entering the closures it
 leaves behind does later (stg_AP_STACK and stg_AP_STACK_NOUPD in kernel/rts/Apply.cmm).
 A stack is a sequence of words, top first.
 */
module Freeze {

  type Addr = nat

  datatype FrameKind = UpdateFrame | CatchFrame | StopFrame | UnderflowFrame | OtherFrame

  datatype Word =
    | EnterInfo                                   // &stg_enter_info
    | Clo(addr: Addr)                             // a closure pointer
    | Frame(kind: FrameKind, size: nat)           // the info pointer that starts a frame of size words
    | Mask(blockex: bool, interruptible: bool)    // the exceptions_blocked word of a catch frame
    | Lit(bits: int)                              // anything else

  const UPDATE_FRAME_SIZE := 2
  const CATCH_FRAME_SIZE := 3
  const UNDERFLOW_FRAME_SIZE := 2
  const STOP_FRAME_SIZE := 1

  datatype Closure =
    | ApStack(noupd: bool, fun: Word, payload: seq<Word>)
    | Ind(target: Word)
    | Raise(exception: Addr)
    | DummyRet
    | Thunk(code: int)
    | Value(contents: seq<Word>)

  type Heap = map<Addr, Closure>

  /** The frame at the top of w is complete. */
  predicate FrameOk(w: seq<Word>, limit: Addr) {
    && w != [] && w[0].Frame? && 1 <= w[0].size <= |w|
    && (w[0].kind.UpdateFrame? ==> w[0].size == UPDATE_FRAME_SIZE && w[1].Clo? && w[1].addr < limit)
    && (w[0].kind.CatchFrame? ==> w[0].size == CATCH_FRAME_SIZE && w[1].Mask?)
    && (w[0].kind.UnderflowFrame? ==> w[0].size == UNDERFLOW_FRAME_SIZE)
    && (w[0].kind.StopFrame? ==> w[0].size == STOP_FRAME_SIZE)
  }

  /** w is a stack: complete frames down to a stop frame; update frames name closures below limit. */
  predicate StackOk(w: seq<Word>, limit: Addr)
    decreases |w|
  {
    && FrameOk(w, limit)
    && (if w[0].kind.StopFrame? then true else StackOk(w[w[0].size..], limit))
  }

  datatype Outcome =
    | Caught(stack: seq<Word>)   // the stack from the catch frame down
    | Killed(stack: seq<Word>)   // what is below the stop frame

  datatype Stripped = Stripped(heap: Heap, hp: Addr, outcome: Outcome)

  /** The while loop of raiseAsync with stop_here == NULL: cur is the current closure, above the words
      passed since, rest the stack from the next frame; closures are allocated at hp, hp + 1, ... */
  function Strip(heap: Heap, hp: Addr, cur: Word, above: seq<Word>, rest: seq<Word>, catching: bool,
                 limit: Addr): Stripped
    requires StackOk(rest, limit)
    decreases |rest|
  {
    var size := rest[0].size;
    match rest[0].kind
    case UpdateFrame =>
      Strip(heap[hp := ApStack(false, cur, above)][rest[1].addr := Ind(Clo(hp))], hp + 1, Clo(hp), [], rest[size..],
            catching, limit)
    case UnderflowFrame =>
      Strip(heap[hp := ApStack(true, cur, above)], hp + 1, Clo(hp), [], rest[size..], catching, limit)
    case StopFrame => Stripped(heap, hp, Killed(rest[size..]))
    case CatchFrame =>
      if catching then Stripped(heap, hp, Caught(rest))
      else Strip(heap, hp, cur, above + rest[..size], rest[size..], catching, limit)
    case OtherFrame => Strip(heap, hp, cur, above + rest[..size], rest[size..], catching, limit)
  }

  // ----- resuming -----

  /** R1 and the stack of a thread that is about to enter a closure. */
  datatype Machine = Machine(r1: Word, stack: seq<Word>)

  /** What entering the AP_STACK self pushes: its words, on an update frame for itself unless it is a NOUPD one. */
  function Pushed(noupd: bool, payload: seq<Word>, self: Word): seq<Word> {
    payload + (if noupd then [] else [Frame(UpdateFrame, UPDATE_FRAME_SIZE), self])
  }

  /** Entering an indirection, an AP_STACK or an AP_STACK_NOUPD; nothing else moves here. */
  function Enter(heap: Heap, m: Machine): Machine {
    if m.r1.Clo? && m.r1.addr in heap then
      match heap[m.r1.addr]
      case Ind(target) => m.(r1 := target)
      case ApStack(noupd, fun, payload) => Machine(fun, Pushed(noupd, payload, m.r1) + m.stack)
      case _ => m
    else m
  }

  function EnterTimes(heap: Heap, m: Machine, n: nat): Machine
    decreases n
  {
    if n == 0 then m else EnterTimes(heap, Enter(heap, m), n - 1)
  }

  // ----- the stack that should come back -----

  predicate Ends(rest: seq<Word>, catching: bool)
    requires rest != [] && rest[0].Frame?
  {
    rest[0].kind.StopFrame? || (rest[0].kind.CatchFrame? && catching)
  }

  /** There is an update frame before the frame that stops the stripping. */
  predicate HasUpdate(rest: seq<Word>, catching: bool, limit: Addr)
    requires StackOk(rest, limit)
    decreases |rest|
  {
    !Ends(rest, catching) && (rest[0].kind.UpdateFrame? || HasUpdate(rest[rest[0].size..], catching, limit))
  }

  /** The closure named by the deepest of those update frames. */
  function DeepestUpdatee(rest: seq<Word>, catching: bool, limit: Addr): Addr
    requires StackOk(rest, limit) && HasUpdate(rest, catching, limit)
    decreases |rest|
  {
    var next := rest[rest[0].size..];
    if HasUpdate(next, catching, limit) then DeepestUpdatee(next, catching, limit) else rest[1].addr
  }

  /** The closures named by those update frames, top first. */
  function Updatees(rest: seq<Word>, catching: bool, limit: Addr): seq<Addr>
    requires StackOk(rest, limit)
    decreases |rest|
  {
    if !HasUpdate(rest, catching, limit) then []
    else (if rest[0].kind.UpdateFrame? then [rest[1].addr] else []) + Updatees(rest[rest[0].size..], catching, limit)
  }

  /** The AP_STACKs built for those update frames: hp, hp + 1, ..., one also being spent on each chunk boundary. */
  function ApNames(rest: seq<Word>, catching: bool, limit: Addr, hp: Addr): (names: seq<Addr>)
    requires StackOk(rest, limit)
    ensures |names| == |Updatees(rest, catching, limit)|
    decreases |rest|
  {
    if !HasUpdate(rest, catching, limit) then []
    else if rest[0].kind.UpdateFrame? then [hp] + ApNames(rest[rest[0].size..], catching, limit, hp + 1)
    else if rest[0].kind.UnderflowFrame? then ApNames(rest[rest[0].size..], catching, limit, hp + 1)
    else ApNames(rest[rest[0].size..], catching, limit, hp)
  }

  /** The words from the top down to and including the deepest of those update frames, without the chunk
      boundaries; the update frames name, in order, the given closures. */
  function Upper(rest: seq<Word>, catching: bool, limit: Addr, names: seq<Addr>): seq<Word>
    requires StackOk(rest, limit) && |names| == |Updatees(rest, catching, limit)|
    decreases |rest|
  {
    if !HasUpdate(rest, catching, limit) then [] else
      var size := rest[0].size;
      if rest[0].kind.UpdateFrame? then [rest[0], Clo(names[0])] + Upper(rest[size..], catching, limit, names[1..])
      else if rest[0].kind.UnderflowFrame? then Upper(rest[size..], catching, limit, names)
      else rest[..size] + Upper(rest[size..], catching, limit, names)
  }

  /** How many closures are entered to bring those words back. */
  function Frozen(rest: seq<Word>, catching: bool, limit: Addr): nat
    requires StackOk(rest, limit)
    decreases |rest|
  {
    if !HasUpdate(rest, catching, limit) then 0
    else (if rest[0].kind.UpdateFrame? || rest[0].kind.UnderflowFrame? then 1 else 0)
         + Frozen(rest[rest[0].size..], catching, limit)
  }

  predicate OneChunk(rest: seq<Word>, limit: Addr)
    requires StackOk(rest, limit)
    decreases |rest|
  {
    !rest[0].kind.UnderflowFrame? && (rest[0].kind.StopFrame? || OneChunk(rest[rest[0].size..], limit))
  }

  /** The words of a stack without its chunk boundaries. */
  function Unchunked(rest: seq<Word>, limit: Addr): (w: seq<Word>)
    requires StackOk(rest, limit)
    ensures OneChunk(rest, limit) ==> w == rest
    decreases |rest|
  {
    var size := rest[0].size;
    assert rest == rest[..size] + rest[size..];
    if rest[0].kind.StopFrame? then rest
    else (if rest[0].kind.UnderflowFrame? then [] else rest[..size]) + Unchunked(rest[size..], limit)
  }

  /** With the names the update frames had, Upper is the top of the stack itself, word for word but for the chunk
      boundaries. */
  lemma {:induction false} UpperIsTheStack(rest: seq<Word>, catching: bool, limit: Addr)
    requires StackOk(rest, limit)
    ensures Upper(rest, catching, limit, Updatees(rest, catching, limit)) <= Unchunked(rest, limit)
    decreases |rest|
  {
    if HasUpdate(rest, catching, limit) {
      UpperIsTheStack(rest[rest[0].size..], catching, limit);
      UpperStep(rest, catching, limit);
    }
  }

  lemma UpperStep(rest: seq<Word>, catching: bool, limit: Addr)
    requires StackOk(rest, limit) && HasUpdate(rest, catching, limit)
    ensures var next := rest[rest[0].size..];
            var top := if rest[0].kind.UnderflowFrame? then [] else rest[..rest[0].size];
            && Upper(rest, catching, limit, Updatees(rest, catching, limit))
               == top + Upper(next, catching, limit, Updatees(next, catching, limit))
            && Unchunked(rest, limit) == top + Unchunked(next, limit)
  {
    if rest[0].kind.UpdateFrame? {
      UpperStepUpdate(rest, catching, limit);
    } else {
      assert Updatees(rest, catching, limit) == Updatees(rest[rest[0].size..], catching, limit);
    }
    hide Upper, Updatees, HasUpdate;
  }

  lemma UpperStepUpdate(rest: seq<Word>, catching: bool, limit: Addr)
    requires StackOk(rest, limit) && HasUpdate(rest, catching, limit) && rest[0].kind.UpdateFrame?
    ensures var next := rest[rest[0].size..];
            Upper(rest, catching, limit, Updatees(rest, catching, limit))
            == rest[..rest[0].size] + Upper(next, catching, limit, Updatees(next, catching, limit))
  {
    var us, next := Updatees(rest, catching, limit), Updatees(rest[rest[0].size..], catching, limit);
    assert us == [rest[1].addr] + next && us[1..] == next;
    hide Updatees, HasUpdate, StackOk;
    assert rest[..rest[0].size] == [rest[0], Clo(rest[1].addr)];
  }

  // ----- the chain of AP_STACKs -----

  /** From cur, n AP_STACKs lead on through fun, all allocated in [lo, hi). */
  predicate Chain(heap: Heap, lo: Addr, hi: Addr, cur: Word, n: nat)
    decreases n
  {
    n == 0 || (&& cur.Clo? && lo <= cur.addr < hi && cur.addr in heap && heap[cur.addr].ApStack?
               && Chain(heap, lo, hi, heap[cur.addr].fun, n - 1))
  }

  function ChainEnd(heap: Heap, lo: Addr, hi: Addr, cur: Word, n: nat): Word
    requires Chain(heap, lo, hi, cur, n)
    decreases n
  {
    if n == 0 then cur else ChainEnd(heap, lo, hi, heap[cur.addr].fun, n - 1)
  }

  /** What the chain pushes, top first. */
  function ChainWords(heap: Heap, lo: Addr, hi: Addr, cur: Word, n: nat): seq<Word>
    requires Chain(heap, lo, hi, cur, n)
    decreases n
  {
    if n == 0 then [] else
      var ap := heap[cur.addr];
      ChainWords(heap, lo, hi, ap.fun, n - 1) + Pushed(ap.noupd, ap.payload, cur)
  }

  lemma {:induction false} EnteringChain(heap: Heap, lo: Addr, hi: Addr, cur: Word, n: nat, stack: seq<Word>)
    requires Chain(heap, lo, hi, cur, n)
    ensures EnterTimes(heap, Machine(cur, stack), n)
            == Machine(ChainEnd(heap, lo, hi, cur, n), ChainWords(heap, lo, hi, cur, n) + stack)
    decreases n
  {
    if n == 0 {
      assert [] + stack == stack;
    } else {
      var ap := heap[cur.addr];
      var pushed := Pushed(ap.noupd, ap.payload, cur);
      assert Enter(heap, Machine(cur, stack)) == Machine(ap.fun, pushed + stack);
      hide Pushed, Enter;
      EnteringChain(heap, lo, hi, ap.fun, n - 1, pushed + stack);
      var w := ChainWords(heap, lo, hi, ap.fun, n - 1);
      assert w + (pushed + stack) == (w + pushed) + stack;
    }
  }

  /** A chain only depends on the closures in its own region. */
  lemma {:induction false} ChainFrame(heap: Heap, heap': Heap, lo: Addr, hi: Addr, hi': Addr, cur: Word, n: nat)
    requires Chain(heap, lo, hi, cur, n) && hi <= hi'
    requires forall a :: lo <= a < hi && a in heap ==> a in heap' && heap'[a] == heap[a]
    ensures Chain(heap', lo, hi', cur, n)
    ensures ChainEnd(heap', lo, hi', cur, n) == ChainEnd(heap, lo, hi, cur, n)
    ensures ChainWords(heap', lo, hi', cur, n) == ChainWords(heap, lo, hi, cur, n)
    decreases n
  {
    if n != 0 {
      ChainFrame(heap, heap', lo, hi, hi', heap[cur.addr].fun, n - 1);
    }
  }

  /** Once no update frame is left, stripping writes no closure that existed. */
  lemma {:induction false} StripQuiet(heap: Heap, hp: Addr, cur: Word, above: seq<Word>, rest: seq<Word>,
                                      catching: bool, limit: Addr)
    requires StackOk(rest, limit) && !HasUpdate(rest, catching, limit)
    ensures var r := Strip(heap, hp, cur, above, rest, catching, limit);
            hp <= r.hp && forall a :: a < hp && a in heap ==> a in r.heap && r.heap[a] == heap[a]
    decreases |rest|
  {
    var size := rest[0].size;
    if rest[0].kind.UnderflowFrame? {
      StripQuiet(heap[hp := ApStack(true, cur, above)], hp + 1, Clo(hp), [], rest[size..], catching, limit);
    } else if !Ends(rest, catching) {
      StripQuiet(heap, hp, cur, above + rest[..size], rest[size..], catching, limit);
    }
  }

  /** Building one more AP_STACK lengthens the chain by its words. */
  lemma ChainPush(heap: Heap, heap1: Heap, lo: Addr, hp: Addr, cur: Word, n: nat, noupd: bool, above: seq<Word>)
    requires Chain(heap, lo, hp, cur, n) && lo <= hp
    requires hp in heap1 && heap1[hp] == ApStack(noupd, cur, above)
    requires forall a :: lo <= a < hp && a in heap ==> a in heap1 && heap1[a] == heap[a]
    ensures Chain(heap1, lo, hp + 1, Clo(hp), n + 1)
    ensures ChainEnd(heap1, lo, hp + 1, Clo(hp), n + 1) == ChainEnd(heap, lo, hp, cur, n)
    ensures ChainWords(heap1, lo, hp + 1, Clo(hp), n + 1)
        == ChainWords(heap, lo, hp, cur, n) + Pushed(noupd, above, Clo(hp))
  {
    ChainFrame(heap, heap1, lo, hp, hp + 1, cur, n);
  }

  /** Entering u leads, through m AP_STACKs of r, to end, with words pushed. */
  ghost predicate ThawsTo(r: Stripped, limit: Addr, u: Addr, m: nat, end: Word, words: seq<Word>) {
    && u in r.heap && r.heap[u].Ind?
    && Chain(r.heap, limit, r.hp, r.heap[u].target, m)
    && ChainEnd(r.heap, limit, r.hp, r.heap[u].target, m) == end
    && ChainWords(r.heap, limit, r.hp, r.heap[u].target, m) == words
  }

  /** From this point of the loop on, the deepest updatee ends up leading, through the closures built, back
      to the words passed. */
  ghost predicate Thaws(heap: Heap, hp: Addr, cur: Word, above: seq<Word>, rest: seq<Word>, catching: bool,
                        limit: Addr, n: nat) {
    && StackOk(rest, limit) && HasUpdate(rest, catching, limit) && Chain(heap, limit, hp, cur, n)
    && ThawsTo(Strip(heap, hp, cur, above, rest, catching, limit), limit, DeepestUpdatee(rest, catching, limit),
               n + Frozen(rest, catching, limit), ChainEnd(heap, limit, hp, cur, n),
               ChainWords(heap, limit, hp, cur, n) + above
                   + Upper(rest, catching, limit, ApNames(rest, catching, limit, hp)))
  }

  lemma {:induction false} StripThaws(heap: Heap, hp: Addr, cur: Word, above: seq<Word>, rest: seq<Word>,
                                      catching: bool, limit: Addr, n: nat)
    requires StackOk(rest, limit) && HasUpdate(rest, catching, limit) && limit <= hp
    requires Chain(heap, limit, hp, cur, n)
    ensures Thaws(heap, hp, cur, above, rest, catching, limit, n)
    decreases |rest|
  {
    hide Thaws, Chain, Strip, StackOk;
    Proper(rest, catching, limit);
    var next := rest[rest[0].size..];
    if rest[0].kind.UpdateFrame? {
      var heap1 := heap[hp := ApStack(false, cur, above)][rest[1].addr := Ind(Clo(hp))];
      ChainPush(heap, heap1, limit, hp, cur, n, false, above);
      if HasUpdate(next, catching, limit) {
        StripThaws(heap1, hp + 1, Clo(hp), [], next, catching, limit, n + 1);
        ThawsOverUpdate(heap, heap1, hp, cur, above, rest, next, catching, limit, n);
      } else {
        ThawsAtDeepest(heap, hp, cur, above, rest, catching, limit, n);
      }
    } else if rest[0].kind.UnderflowFrame? {
      var heap1 := heap[hp := ApStack(true, cur, above)];
      ChainPush(heap, heap1, limit, hp, cur, n, true, above);
      StripThaws(heap1, hp + 1, Clo(hp), [], next, catching, limit, n + 1);
      ThawsOverUnderflow(heap, heap1, hp, cur, above, rest, next, catching, limit, n);
    } else {
      StripThaws(heap, hp, cur, above + rest[..rest[0].size], next, catching, limit, n);
      ThawsOverOther(heap, hp, cur, above, rest, catching, limit, n);
    }
  }

  /** Some update frame lies ahead: the frame on top is not the end, and the rest is a stack again. */
  lemma Proper(rest: seq<Word>, catching: bool, limit: Addr)
    requires StackOk(rest, limit) && HasUpdate(rest, catching, limit)
    ensures rest != [] && rest[0].Frame? && 1 <= rest[0].size <= |rest| && StackOk(rest[rest[0].size..], limit)
    ensures rest[0].kind.UpdateFrame? ==> |rest| > 1 && rest[1].Clo? && rest[1].addr < limit
  {
  }

  lemma ThawsOverOther(heap: Heap, hp: Addr, cur: Word, above: seq<Word>, rest: seq<Word>, catching: bool,
                       limit: Addr, n: nat)
    requires StackOk(rest, limit) && HasUpdate(rest, catching, limit)
    requires !rest[0].kind.UpdateFrame? && !rest[0].kind.UnderflowFrame?
    requires Thaws(heap, hp, cur, above + rest[..rest[0].size], rest[rest[0].size..], catching, limit, n)
    ensures Thaws(heap, hp, cur, above, rest, catching, limit, n)
  {
    hide ThawsTo, Chain, ChainEnd, ChainWords;
    Assoc(ChainWords(heap, limit, hp, cur, n), above, rest[..rest[0].size],
          Upper(rest[rest[0].size..], catching, limit, ApNames(rest[rest[0].size..], catching, limit, hp)));
  }

  lemma ThawsOverUnderflow(heap: Heap, heap1: Heap, hp: Addr, cur: Word, above: seq<Word>, rest: seq<Word>,
                           next: seq<Word>,
                           catching: bool, limit: Addr, n: nat)
    requires StackOk(rest, limit) && HasUpdate(rest, catching, limit) && Chain(heap, limit, hp, cur, n)
    requires rest[0].kind.UnderflowFrame? && next == rest[rest[0].size..]
    requires heap1 == heap[hp := ApStack(true, cur, above)]
    requires Chain(heap1, limit, hp + 1, Clo(hp), n + 1)
    requires ChainEnd(heap1, limit, hp + 1, Clo(hp), n + 1) == ChainEnd(heap, limit, hp, cur, n)
    requires ChainWords(heap1, limit, hp + 1, Clo(hp), n + 1)
        == ChainWords(heap, limit, hp, cur, n) + Pushed(true, above, Clo(hp))
    requires Thaws(heap1, hp + 1, Clo(hp), [], next, catching, limit, n + 1)
    ensures Thaws(heap, hp, cur, above, rest, catching, limit, n)
  {
    hide ThawsTo, Chain, ChainEnd, ChainWords;
    var w, upper := ChainWords(heap, limit, hp, cur, n),
        Upper(next, catching, limit, ApNames(next, catching, limit, hp + 1));
    assert upper == Upper(rest, catching, limit, ApNames(rest, catching, limit, hp));
    assert Frozen(rest, catching, limit) == 1 + Frozen(next, catching, limit);
    assert DeepestUpdatee(rest, catching, limit) == DeepestUpdatee(next, catching, limit);
    assert Strip(heap, hp, cur, above, rest, catching, limit)
        == Strip(heap1, hp + 1, Clo(hp), [], next, catching, limit);
    hide Upper, ApNames, Frozen, DeepestUpdatee, Strip, HasUpdate, StackOk;
    assert w + Pushed(true, above, Clo(hp)) + [] + upper == w + above + upper by {
      Assoc(w, above, [], upper);
    }
  }

  lemma ThawsOverUpdate(heap: Heap, heap1: Heap, hp: Addr, cur: Word, above: seq<Word>, rest: seq<Word>,
                        next: seq<Word>,
                        catching: bool, limit: Addr, n: nat)
    requires StackOk(rest, limit) && HasUpdate(rest, catching, limit) && Chain(heap, limit, hp, cur, n)
    requires rest[0].kind.UpdateFrame? && next == rest[rest[0].size..] && HasUpdate(next, catching, limit)
    requires heap1 == heap[hp := ApStack(false, cur, above)][rest[1].addr := Ind(Clo(hp))]
    requires Chain(heap1, limit, hp + 1, Clo(hp), n + 1)
    requires ChainEnd(heap1, limit, hp + 1, Clo(hp), n + 1) == ChainEnd(heap, limit, hp, cur, n)
    requires ChainWords(heap1, limit, hp + 1, Clo(hp), n + 1)
        == ChainWords(heap, limit, hp, cur, n) + Pushed(false, above, Clo(hp))
    requires Thaws(heap1, hp + 1, Clo(hp), [], next, catching, limit, n + 1)
    ensures Thaws(heap, hp, cur, above, rest, catching, limit, n)
  {
    hide ThawsTo, Chain, ChainEnd, ChainWords;
    UpperUpdate(rest, catching, limit, hp);
    Assoc(ChainWords(heap, limit, hp, cur, n), above, [rest[0], Clo(hp)],
          Upper(next, catching, limit, ApNames(next, catching, limit, hp + 1)));
  }

  /** After the deepest update frame the rest of the stripping leaves the chain alone. */
  lemma DeepestThaws(heap: Heap, hp: Addr, cur: Word, above: seq<Word>, rest: seq<Word>, catching: bool, limit: Addr,
                     n: nat)
    requires StackOk(rest, limit) && HasUpdate(rest, catching, limit) && limit <= hp && Chain(heap, limit, hp, cur, n)
    requires rest[0].kind.UpdateFrame? && !HasUpdate(rest[rest[0].size..], catching, limit)
    ensures ThawsTo(Strip(heap, hp, cur, above, rest, catching, limit), limit, rest[1].addr, n + 1,
                    ChainEnd(heap, limit, hp, cur, n),
                    ChainWords(heap, limit, hp, cur, n) + Pushed(false, above, Clo(hp)))
  {
    var next := rest[rest[0].size..];
    var heap1 := heap[hp := ApStack(false, cur, above)][rest[1].addr := Ind(Clo(hp))];
    var r := Strip(heap1, hp + 1, Clo(hp), [], next, catching, limit);
    assert r == Strip(heap, hp, cur, above, rest, catching, limit);
    ChainPush(heap, heap1, limit, hp, cur, n, false, above);
    StripQuiet(heap1, hp + 1, Clo(hp), [], next, catching, limit);
    hide Chain, ChainEnd, ChainWords, Strip, StackOk, HasUpdate, Pushed;
    ChainFrame(heap1, r.heap, limit, hp + 1, r.hp, Clo(hp), n + 1);
  }

  lemma ThawsAtDeepest(heap: Heap, hp: Addr, cur: Word, above: seq<Word>, rest: seq<Word>, catching: bool,
                       limit: Addr, n: nat)
    requires StackOk(rest, limit) && HasUpdate(rest, catching, limit) && limit <= hp && Chain(heap, limit, hp, cur, n)
    requires rest[0].kind.UpdateFrame? && !HasUpdate(rest[rest[0].size..], catching, limit)
    ensures Thaws(heap, hp, cur, above, rest, catching, limit, n)
  {
    DeepestThaws(heap, hp, cur, above, rest, catching, limit, n);
    hide ThawsTo, Chain, ChainEnd, ChainWords, Strip;
    var w := ChainWords(heap, limit, hp, cur, n);
    UpperUpdate(rest, catching, limit, hp);
    assert Upper(rest, catching, limit, ApNames(rest, catching, limit, hp)) == [rest[0], Clo(hp)] + [];
    assert DeepestUpdatee(rest, catching, limit) == rest[1].addr;
    assert Frozen(rest, catching, limit) == 1;
    assert w + Pushed(false, above, Clo(hp)) == w + above + ([rest[0], Clo(hp)] + []) by {
      Assoc(w, above, [rest[0], Clo(hp)], []);
      assert rest[0] == Frame(UpdateFrame, UPDATE_FRAME_SIZE);
    }
  }

  lemma Assoc(a: seq<Word>, b: seq<Word>, c: seq<Word>, d: seq<Word>)
    ensures a + (b + c) + d == a + b + (c + d)
    ensures a + (b + c) + [] + d == a + b + (c + d)
    ensures a + (b + []) + [] + d == a + b + d
    ensures a + (b + c) == a + b + (c + [])
  {
    assert c + [] == c && b + [] == b;
  }

  /** The words of an update frame come back naming the AP_STACK at hp. */
  lemma UpperUpdate(rest: seq<Word>, catching: bool, limit: Addr, hp: Addr)
    requires StackOk(rest, limit) && rest[0].kind.UpdateFrame? && HasUpdate(rest, catching, limit)
    ensures var next := rest[rest[0].size..];
            Upper(rest, catching, limit, ApNames(rest, catching, limit, hp))
            == [rest[0], Clo(hp)] + Upper(next, catching, limit, ApNames(next, catching, limit, hp + 1))
  {
    var next := rest[rest[0].size..];
    assert ApNames(rest, catching, limit, hp)[1..] == ApNames(next, catching, limit, hp + 1);
  }

  /** Freeze and resume: entering the deepest updated thunk, on any stack, enters the closures built and ends
      up entering the old top closure with the old words down to that update frame back on the stack;
      each update frame now names the AP_STACK that was built for it. */
  lemma FreezeResume(heap: Heap, hp: Addr, top: Word, rest: seq<Word>, catching: bool, limit: Addr, stack: seq<Word>)
    requires StackOk(rest, limit) && HasUpdate(rest, catching, limit) && limit <= hp
    ensures var r := Strip(heap, hp, top, [], rest, catching, limit);
            EnterTimes(r.heap, Machine(Clo(DeepestUpdatee(rest, catching, limit)), stack),
                       1 + Frozen(rest, catching, limit))
            == Machine(top, Upper(rest, catching, limit, ApNames(rest, catching, limit, hp)) + stack)
  {
    StripThaws(heap, hp, top, [], rest, catching, limit, 0);
    hide Strip, Upper, HasUpdate, StackOk, ApNames, Updatees, DeepestUpdatee, Frozen, EnterTimes, ThawsTo;
    EnteringUpdatee(Strip(heap, hp, top, [], rest, catching, limit), limit, DeepestUpdatee(rest, catching, limit),
                    Frozen(rest, catching, limit), top,
                    Upper(rest, catching, limit, ApNames(rest, catching, limit, hp)), stack);
  }

  lemma EnteringUpdatee(r: Stripped, limit: Addr, u: Addr, m: nat, end: Word, words: seq<Word>, stack: seq<Word>)
    requires ThawsTo(r, limit, u, m, end, [] + [] + words)
    ensures EnterTimes(r.heap, Machine(Clo(u), stack), 1 + m) == Machine(end, words + stack)
  {
    EnteringChain(r.heap, limit, r.hp, r.heap[u].target, m, stack);
    assert [] + [] + words == words;
    assert Enter(r.heap, Machine(Clo(u), stack)) == Machine(r.heap[u].target, stack);
  }

  lemma {:induction false} DeepestBelow(rest: seq<Word>, catching: bool, limit: Addr)
    requires StackOk(rest, limit) && HasUpdate(rest, catching, limit)
    ensures DeepestUpdatee(rest, catching, limit) < limit
    ensures 0 < Frozen(rest, catching, limit)
    decreases |rest|
  {
    var next := rest[rest[0].size..];
    if HasUpdate(next, catching, limit) {
      DeepestBelow(next, catching, limit);
    }
  }

  /** Entering the deepest updated thunk in this heap, on any stack, ends up entering top with the words back. */
  ghost predicate Resumes(heap: Heap, hp: Addr, top: Word, rest: seq<Word>, catching: bool, limit: Addr)
    requires StackOk(rest, limit) && HasUpdate(rest, catching, limit)
  {
    forall stack: seq<Word> :: EnterTimes(heap, Machine(Clo(DeepestUpdatee(rest, catching, limit)), stack),
                                          1 + Frozen(rest, catching, limit))
                               == Machine(top, Upper(rest, catching, limit, ApNames(rest, catching, limit, hp)) + stack)
  }

  /** So it is in any heap that keeps what stripping has left. */
  lemma ResumesLater(heap: Heap, hp: Addr, top: Word, rest: seq<Word>, catching: bool, limit: Addr, later: Heap)
    requires StackOk(rest, limit) && HasUpdate(rest, catching, limit) && limit <= hp
    requires var r := Strip(heap, hp, top, [], rest, catching, limit);
             forall a :: a < r.hp && a in r.heap ==> a in later && later[a] == r.heap[a]
    ensures Resumes(later, hp, top, rest, catching, limit)
  {
    var r := Strip(heap, hp, top, [], rest, catching, limit);
    var u, m := DeepestUpdatee(rest, catching, limit), Frozen(rest, catching, limit);
    var words := Upper(rest, catching, limit, ApNames(rest, catching, limit, hp));
    StripThaws(heap, hp, top, [], rest, catching, limit, 0);
    DeepestBelow(rest, catching, limit);
    assert [] + [] + words == words;
    assert ThawsTo(r, limit, u, m, top, words);
    hide Strip, Upper, HasUpdate, StackOk, ApNames, Updatees, DeepestUpdatee, Frozen, EnterTimes, Thaws;
    assert u < r.hp by { assert Chain(r.heap, limit, r.hp, r.heap[u].target, m); }
    ChainFrame(r.heap, later, limit, r.hp, r.hp, r.heap[u].target, m);
    forall stack: seq<Word>
      ensures EnterTimes(later, Machine(Clo(u), stack), 1 + m) == Machine(top, words + stack)
    {
      EnteringUpdatee(r.(heap := later), limit, u, m, top, words, stack);
    }
  }

  /** No later closure is the i-th. */
  predicate LastNamed(us: seq<Addr>, i: nat) {
    i < |us| && forall j :: i < j < |us| ==> us[j] != us[i]
  }

  lemma LastNamedTail(x: Addr, us: seq<Addr>, i: nat)
    requires LastNamed([x] + us, i)
    ensures if i == 0 then x !in us else LastNamed(us, i - 1)
  {
    var all := [x] + us;
    forall j | 0 <= j < |us|
      ensures us[j] == all[j + 1]
    { }
    if i > 0 {
      forall j | i - 1 < j < |us| ensures us[j] != us[i - 1] { assert all[j + 1] != all[i]; }
    } else {
      forall j | 0 <= j < |us| ensures us[j] != x { assert all[j + 1] != all[0]; }
    }
  }

  /** The i-th updatee indirects to the i-th AP_STACK built for them. */
  ghost predicate Indirects(r: Stripped, us: seq<Addr>, names: seq<Addr>, i: nat) {
    i < |us| == |names| && us[i] in r.heap && r.heap[us[i]] == Ind(Clo(names[i]))
  }

  /** The old updatee of each frame indirects to the AP_STACK that the frame names on resumption, unless
      a deeper frame names the same updatee; then that one wins. */
  lemma {:induction false} UpdateesIndirect(heap: Heap, hp: Addr, cur: Word, above: seq<Word>, rest: seq<Word>,
                                            catching: bool, limit: Addr, i: nat)
    requires StackOk(rest, limit) && limit <= hp && LastNamed(Updatees(rest, catching, limit), i)
    ensures Indirects(Strip(heap, hp, cur, above, rest, catching, limit), Updatees(rest, catching, limit),
                      ApNames(rest, catching, limit, hp), i)
    decreases |rest|
  {
    var size := rest[0].size;
    var next := rest[size..];
    var us := Updatees(rest, catching, limit);
    if rest[0].kind.UpdateFrame? {
      AtUpdate(heap, hp, cur, above, rest, catching, limit, i);
    } else {
      assert HasUpdate(rest, catching, limit) && us == Updatees(next, catching, limit);
      hide LastNamed, Indirects;
      if rest[0].kind.UnderflowFrame? {
        UpdateesIndirect(heap[hp := ApStack(true, cur, above)], hp + 1, Clo(hp), [], next, catching, limit, i);
      } else {
        UpdateesIndirect(heap, hp, cur, above + rest[..size], next, catching, limit, i);
      }
    }
  }

  lemma {:induction false} AtUpdate(heap: Heap, hp: Addr, cur: Word, above: seq<Word>, rest: seq<Word>,
                                    catching: bool, limit: Addr, i: nat)
    requires StackOk(rest, limit) && limit <= hp && rest[0].kind.UpdateFrame?
    requires LastNamed(Updatees(rest, catching, limit), i)
    ensures Indirects(Strip(heap, hp, cur, above, rest, catching, limit), Updatees(rest, catching, limit),
                      ApNames(rest, catching, limit, hp), i)
    decreases |rest|, 0
  {
    var next, x := rest[rest[0].size..], rest[1].addr;
    var heap1 := heap[hp := ApStack(false, cur, above)][x := Ind(Clo(hp))];
    var us := Updatees(next, catching, limit);
    assert Updatees(rest, catching, limit) == [x] + us;
    assert ApNames(rest, catching, limit, hp) == [hp] + ApNames(next, catching, limit, hp + 1);
    assert Strip(heap, hp, cur, above, rest, catching, limit)
        == Strip(heap1, hp + 1, Clo(hp), [], next, catching, limit);
    LastNamedTail(x, us, i);
    hide Updatees, ApNames, Strip, HasUpdate, LastNamed;
    if i > 0 {
      UpdateesIndirect(heap1, hp + 1, Clo(hp), [], next, catching, limit, i - 1);
    } else {
      OthersKept(heap1, hp + 1, Clo(hp), [], next, catching, limit, x);
    }
  }

  /** Stripping leaves every existing closure alone that no update frame names. */
  lemma {:induction false} OthersKept(heap: Heap, hp: Addr, cur: Word, above: seq<Word>, rest: seq<Word>,
                                      catching: bool, limit: Addr, a: Addr)
    requires StackOk(rest, limit) && a < hp && a in heap && a !in Updatees(rest, catching, limit)
    ensures var r := Strip(heap, hp, cur, above, rest, catching, limit);
            a in r.heap && r.heap[a] == heap[a]
    decreases |rest|
  {
    var size := rest[0].size;
    var next := rest[size..];
    if !HasUpdate(rest, catching, limit) {
      StripQuiet(heap, hp, cur, above, rest, catching, limit);
    } else if rest[0].kind.UpdateFrame? {
      assert Updatees(rest, catching, limit)[0] == rest[1].addr;
      OthersKept(heap[hp := ApStack(false, cur, above)][rest[1].addr := Ind(Clo(hp))], hp + 1, Clo(hp), [], next,
                 catching, limit, a);
    } else if rest[0].kind.UnderflowFrame? {
      OthersKept(heap[hp := ApStack(true, cur, above)], hp + 1, Clo(hp), [], next, catching, limit, a);
    } else {
      OthersKept(heap, hp, cur, above + rest[..size], next, catching, limit, a);
    }
  }

  /** The frames of the stack start at these words, one after the other. */
  ghost predicate Frames(rest: seq<Word>, fs: seq<nat>) {
    && fs != [] && fs[0] == 0
    && (forall i :: 0 <= i < |fs| ==> fs[i] < |rest| && rest[fs[i]].Frame?)
    && (forall i :: 0 <= i < |fs| - 1 ==> fs[i + 1] == fs[i] + rest[fs[i]].size)
  }

  /** The same frames, below one more of the given size. */
  function Shift(fs: seq<nat>, size: nat): (gs: seq<nat>)
    ensures |gs| == |fs| + 1 && gs[0] == 0 && forall i :: 1 <= i < |gs| ==> gs[i] == fs[i - 1] + size
  {
    [0] + seq(|fs|, i requires 0 <= i < |fs| => fs[i] + size)
  }

  lemma FramesCons(rest: seq<Word>, fs: seq<nat>)
    requires rest != [] && rest[0].Frame? && rest[0].size <= |rest| && Frames(rest[rest[0].size..], fs)
    ensures Frames(rest, Shift(fs, rest[0].size))
  {
    hide Shift;
    var next, gs := rest[rest[0].size..], Shift(fs, rest[0].size);
    forall i | 0 <= i < |gs|
      ensures gs[i] < |rest| && rest[gs[i]].Frame?
    {
      if i > 0 { assert next[fs[i - 1]] == rest[gs[i]]; }
    }
    forall i | 0 <= i < |gs| - 1
      ensures gs[i + 1] == gs[i] + rest[gs[i]].size
    {
      if i > 0 { assert fs[(i - 1) + 1] == fs[i - 1] + next[fs[i - 1]].size; }
    }
  }

  /** The stripping stops at the frame that starts at k, and leaves this. */
  predicate StopsAt(rest: seq<Word>, k: nat, catching: bool, o: Outcome) {
    k < |rest| && rest[k].Frame?
    && if rest[k].kind.CatchFrame? && catching then o == Caught(rest[k..])
       else rest[k].kind.StopFrame? && k + rest[k].size <= |rest| && o == Killed(rest[k + rest[k].size..])
  }

  function Innermost(rest: seq<Word>, catching: bool, limit: Addr): Outcome
    requires StackOk(rest, limit)
    decreases |rest|
  {
    if rest[0].kind.CatchFrame? && catching then Caught(rest)
    else if rest[0].kind.StopFrame? then Killed(rest[rest[0].size..])
    else Innermost(rest[rest[0].size..], catching, limit)
  }

  lemma {:induction false} StripInnermost(heap: Heap, hp: Addr, cur: Word, above: seq<Word>, rest: seq<Word>,
                                          catching: bool, limit: Addr)
    requires StackOk(rest, limit)
    ensures Strip(heap, hp, cur, above, rest, catching, limit).outcome == Innermost(rest, catching, limit)
    decreases |rest|
  {
    var size := rest[0].size;
    match rest[0].kind
    case UpdateFrame =>
      StripInnermost(heap[hp := ApStack(false, cur, above)][rest[1].addr := Ind(Clo(hp))], hp + 1, Clo(hp), [],
                     rest[size..], catching, limit);
    case UnderflowFrame =>
      StripInnermost(heap[hp := ApStack(true, cur, above)], hp + 1, Clo(hp), [], rest[size..], catching, limit);
    case StopFrame =>
    case _ =>
      if !Ends(rest, catching) {
        StripInnermost(heap, hp, cur, above + rest[..size], rest[size..], catching, limit);
      }
  }

  predicate Passed(rest: seq<Word>, k: nat, catching: bool) {
    k < |rest| && rest[k].Frame? && !rest[k].kind.StopFrame? && !(catching && rest[k].kind.CatchFrame?)
  }

  /** The frames down to the first that is a catch frame, if there is an exception, or the stop frame. */
  ghost predicate DownTo(rest: seq<Word>, fs: seq<nat>, catching: bool, o: Outcome) {
    && Frames(rest, fs) && StopsAt(rest, fs[|fs| - 1], catching, o)
    && forall i :: 0 <= i < |fs| - 1 ==> Passed(rest, fs[i], catching)
  }

  lemma StopsBelow(rest: seq<Word>, size: nat, k: nat, catching: bool, o: Outcome)
    requires size <= |rest| && StopsAt(rest[size..], k, catching, o)
    ensures StopsAt(rest, k + size, catching, o)
  {
    var next := rest[size..];
    assert next[k] == rest[k + size] && next[k..] == rest[k + size..];
    if k + next[k].size <= |next| {
      assert next[k + next[k].size..] == rest[k + size + next[k].size..];
    }
  }

  lemma PassedBelow(rest: seq<Word>, size: nat, k: nat, catching: bool)
    requires size <= |rest| && Passed(rest[size..], k, catching)
    ensures Passed(rest, k + size, catching)
  {
    assert rest[size..][k] == rest[k + size];
  }

  lemma OneMore(rest: seq<Word>, fs: seq<nat>, catching: bool, o: Outcome)
    requires rest != [] && rest[0].Frame? && rest[0].size <= |rest| && !Ends(rest, catching)
    requires DownTo(rest[rest[0].size..], fs, catching, o)
    ensures DownTo(rest, Shift(fs, rest[0].size), catching, o)
  {
    FramesCons(rest, fs);
    StopsBelow(rest, rest[0].size, fs[|fs| - 1], catching, o);
    assert Passed(rest, 0, catching);
    hide Shift, Frames, StopsAt, Passed;
    var gs := Shift(fs, rest[0].size);
    forall i | 0 <= i < |gs| - 1
      ensures Passed(rest, gs[i], catching)
    {
      if i > 0 { PassedBelow(rest, rest[0].size, fs[i - 1], catching); }
    }
  }

  lemma {:induction false} InnermostFrames(rest: seq<Word>, catching: bool, limit: Addr) returns (fs: seq<nat>)
    requires StackOk(rest, limit)
    ensures DownTo(rest, fs, catching, Innermost(rest, catching, limit))
    decreases |rest|
  {
    if Ends(rest, catching) {
      assert rest[0..] == rest;
      fs := [0];
    } else {
      fs := InnermostFrames(rest[rest[0].size..], catching, limit);
      hide DownTo;
      OneMore(rest, fs, catching, Innermost(rest, catching, limit));
      fs := Shift(fs, rest[0].size);
    }
  }

  /** What is left of the stack starts at the first of its frames that is a catch frame, if there is an exception, or
      the stop frame, which goes too; no frame above it is either. */
  lemma StripStopsAtCatch(heap: Heap, hp: Addr, cur: Word, above: seq<Word>, rest: seq<Word>, catching: bool,
                          limit: Addr)
    returns (fs: seq<nat>)
    requires StackOk(rest, limit)
    ensures DownTo(rest, fs, catching, Strip(heap, hp, cur, above, rest, catching, limit).outcome)
  {
    hide DownTo;
    StripInnermost(heap, hp, cur, above, rest, catching, limit);
    fs := InnermostFrames(rest, catching, limit);
  }
}
