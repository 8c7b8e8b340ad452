/**
 The stack of kernel/rts/Interpreter.c, an array with Sp the index of its top, changed in place as the interpreter does.
 Each method is proved to be a function of Apply on the words from Sp to the bottom.
 */
module Interpreter {
  import opened Apply

  const RESERVED_STACK_WORDS := 21

  /** Where do_apply goes next. */
  datatype Jump = RunBcoFun(bco: Bco) | DoReturnOf(c: Closure) | ToScheduler(overflow: bool)

  function StepOf(j: Jump, s: seq<Word>): Step {
    match j
    case RunBcoFun(bco) => RunFun(bco, s)
    case DoReturnOf(c) => Return(c, s)
    case ToScheduler(overflow) => Scheduler(s, overflow)
  }

  /** Where the interpreter goes from do_return. */
  datatype Exit = RunFunction(bco: Bco) | RunContinuation | LeaveTo(overflow: bool)

  function OutcomeOf(e: Exit, s: seq<Word>): Outcome {
    match e
    case RunFunction(bco) => RunBco(bco, s)
    case RunContinuation => Resume(s)
    case LeaveTo(overflow) => Yield(s, overflow)
  }

  lemma ShuffledIs(was: seq<Word>, now: seq<Word>, x: (nat, nat), gap: Word)
    requires |now| == |was| && x.0 + 1 + x.1 <= |was|
    requires forall j :: x.0 <= j < x.0 + x.1 ==> now[j] == was[j + 1]
    requires now[x.0 + x.1] == gap && forall j :: x.0 + x.1 < j < |was| ==> now[j] == was[j]
    ensures now[x.0..] == was[x.0..][1..1 + x.1] + [gap] + was[x.0..][1 + x.1..]
  {
    var (sp, arity) := x;
    assert now[sp..] == now[sp..sp + arity] + [now[sp + arity]] + now[sp + arity + 1..];
    assert now[sp..sp + arity] == was[sp + 1..sp + arity + 1] == was[sp..][1..1 + arity];
    assert now[sp + arity + 1..] == was[sp + arity + 1..] == was[sp..][1 + arity..];
  }

  lemma SlidIs(was: seq<Word>, now: seq<Word>, sp: nat, x: (nat, nat))
    requires |now| == |was| && sp + x.0 + x.1 <= |was|
    requires forall j :: sp + x.1 <= j < sp + x.0 + x.1 ==> now[j] == was[j - x.1]
    requires forall j :: sp + x.0 + x.1 <= j < |was| ==> now[j] == was[j]
    ensures now[sp + x.1..] == was[sp..][..x.0] + was[sp..][x.0 + x.1..]
  {
    var (n, drop) := x;
    assert now[sp + drop..] == now[sp + drop..sp + n + drop] + now[sp + n + drop..];
    assert now[sp + drop..sp + n + drop] == was[sp..sp + n] == was[sp..][..n];
    assert now[sp + n + drop..] == was[sp + n + drop..] == was[sp..][n + drop..];
  }

  /** From c and s on, all comes of it if made has been so far. */
  predicate Due(c: Closure, s: seq<Word>, size: nat, made: seq<(Word, Closure)>, all: (Outcome, seq<(Word, Closure)>))
    requires Applicable(c)
  {
    var (o, rest) := DoReturn(c, s, size);
    (o, made + rest) == all
  }

  /** One frame more. */
  lemma Returned(c: Closure, s: seq<Word>, size: nat, made: seq<(Word, Closure)>, all: (Outcome, seq<(Word, Closure)>))
    requires Applicable(c) && Due(c, s, size, made, all)
    ensures if AtApply(s) then
              match DoApply(c, s, size)
              case RunFun(b, t) => all == (RunBco(b, t), made)
              case Return(c1, t) => Applicable(c1) && Due(c1, t, size, made, all)
              case Scheduler(t, overflow) => all == (Yield(t, overflow), made)
            else if AtUpdate(s) then Due(c, s[UPDATE_FRAME_SIZE..], size, made + [(s[1], c)], all)
            else all == (if AtBco(s) then Resume([Ptr(c)] + s) else Yield([EnterInfo, Ptr(c)] + s, false), made)
  {
    assert made + [] == made;
    if !AtApply(s) && AtUpdate(s) {
      var rest := DoReturn(c, s[UPDATE_FRAME_SIZE..], size).1;
      assert made + ([(s[1], c)] + rest) == (made + [(s[1], c)]) + rest;
    }
    hide DoApply, AtApply;
  }

  class Stack {
    const words: array<Word>
    const SpLim: nat
    var Sp: nat

    constructor (size: nat)
      requires size > RESERVED_STACK_WORDS
      ensures Valid() && Words() == [] && fresh(words)
    {
      words := new Word[size](_ => Raw(0));
      SpLim, Sp := RESERVED_STACK_WORDS, size;
    }

    ghost predicate Valid()
      reads this
    {
      RESERVED_STACK_WORDS <= SpLim <= Sp <= words.Length
    }

    ghost function Words(): seq<Word>
      requires Sp <= words.Length
      reads this, words
    {
      words[Sp..]
    }

    ghost function Size(): nat
      requires SpLim <= words.Length
    {
      words.Length - SpLim
    }

    /** Sp -= |ws|, and the words copied there. */
    method Unpack(ws: seq<Word>)
      requires |ws| <= Sp <= words.Length
      modifies this`Sp, words
      ensures Sp == old(Sp) - |ws| && Words() == ws + old(Words())
    {
      Sp := Sp - |ws|;
      var i := 0;
      while i < |ws|
        invariant i <= |ws| && Sp == old(Sp) - |ws|
        invariant words[Sp..Sp + i] == ws[..i]
        invariant words[old(Sp)..] == old(words[Sp..])
      {
        words[Sp + i] := ws[i];
        i := i + 1;
      }
      assert ws[..|ws|] == ws;
      assert words[Sp..] == words[Sp..Sp + |ws|] + words[old(Sp)..];
    }

    /** back to the scheduler, which is to enter c. */
    method Enter(c: Closure)
      requires 2 <= Sp <= words.Length
      modifies this`Sp, words
      ensures Sp == old(Sp) - 2 && Words() == [EnterInfo, Ptr(c)] + old(Words())
    {
      Sp := Sp - 2;
      words[Sp + 1] := Ptr(c);
      words[Sp] := EnterInfo;
      assert words[Sp..] == [words[Sp], words[Sp + 1]] + words[Sp + 2..];
      assert words[old(Sp)..] == old(words[Sp..]);
    }

    /** The loop of do_apply: arity words move one place towards the top. */
    method MoveUp(sp: nat, arity: nat)
      requires 0 < sp && sp + arity <= words.Length
      modifies words
      ensures forall j :: sp - 1 <= j < sp + arity - 1 ==> words[j] == old(words[j + 1])
      ensures forall j :: 0 <= j < words.Length && !(sp - 1 <= j < sp + arity - 1) ==> words[j] == old(words[j])
    {
      var i := 0;
      while i < arity
        invariant i <= arity
        invariant forall j :: sp - 1 <= j < sp + i - 1 ==> words[j] == old(words[j + 1])
        invariant forall j :: 0 <= j < words.Length && !(sp - 1 <= j < sp + i - 1) ==> words[j] == old(words[j])
      {
        words[sp + i - 1] := words[sp + i];
        i := i + 1;
      }
    }

    /** The first words after the top one step towards it, and gap put after them. */
    method Shuffle(arity: nat, gap: Word)
      requires Sp + 1 + arity <= words.Length
      modifies words
      ensures Words() == old(Words()[1..1 + arity] + [gap] + Words()[1 + arity..])
    {
      ghost var was := words[..];
      MoveUp(Sp + 1, arity);
      words[Sp + arity] := gap;
      ShuffledIs(was, words[..], (Sp, arity), gap);
    }

    /** The top m words, copied into a payload behind held. */
    method Payload(held: seq<Word>, m: nat) returns (payload: seq<Word>)
      requires Sp + m <= words.Length
      ensures payload == held + words[Sp..Sp + m]
    {
      var a := new Word[|held| + m](_ => Raw(0));
      var i := 0;
      while i < |held|
        invariant i <= |held| && a[..i] == held[..i]
      {
        a[i] := held[i];
        i := i + 1;
      }
      i := 0;
      while i < m
        invariant i <= m && a[..|held| + i] == held + words[Sp..Sp + i]
      {
        a[|held| + i] := words[Sp + i];
        i := i + 1;
      }
      payload := a[..];
      assert a[..] == a[..|held| + m];
    }

    /** The loop of bci_SLIDE: n words move drop places towards the bottom, the last one first. */
    method MoveDown(n: nat, drop: nat)
      requires Sp + n + drop <= words.Length
      modifies words
      ensures forall j :: Sp + drop <= j < Sp + n + drop ==> words[j] == old(words[j - drop])
      ensures forall j :: Sp + n + drop <= j < words.Length ==> words[j] == old(words[j])
    {
      var i: int := n;
      ghost var was := words[..];
      while i > 0
        invariant 0 <= i <= n && |was| == words.Length
        invariant forall j :: Sp + i + drop <= j < Sp + n + drop ==> words[j] == was[j - drop]
        invariant forall j :: 0 <= j < Sp + i + drop ==> words[j] == was[j]
        invariant forall j :: Sp + n + drop <= j < words.Length ==> words[j] == was[j]
      {
        i := i - 1;
        words[Sp + i + drop] := words[Sp + i];
      }
    }

    /** bci_SLIDE: a_1 .. a_n, b_1 .. b_drop, s becomes a_1 .. a_n, s. */
    method Slide(n: nat, drop: nat)
      requires Sp + n + drop <= words.Length
      modifies this`Sp, words
      ensures Sp == old(Sp) + drop && Words() == old(Words()[..n] + Words()[n + drop..])
    {
      ghost var was := words[..];
      MoveDown(n, drop);
      SlidIs(was, words[..], Sp, (n, drop));
      Sp := Sp + drop;
    }

    /** A new PAP of what fun held and the arguments of the frame, which is popped. */
    method NewPap(arity: nat, fun: Closure, held: seq<Word>, m: nat) returns (pap: Closure)
      requires Sp + 1 + m <= words.Length
      modifies this`Sp
      ensures Sp == old(Sp) + 1 + m && Words() == old(Words())[1 + m..]
      ensures pap == PAP(arity, fun, held + old(Words())[1..1 + m])
    {
      Sp := Sp + 1;
      var payload := Payload(held, m);
      Sp := Sp + m;
      assert words[old(Sp) + 1..old(Sp) + 1 + m] == old(Words())[1..1 + m];
      pap := PAP(arity, fun, payload);
    }

    /** do_apply, for a BCO. */
    method ApplyBco(bco: Bco, f: Frame) returns (jump: Jump)
      requires Valid() && AtApply(Words()) && words[Sp] == Ap(f) && bco.arity > 0
      modifies this`Sp, words
      ensures Valid() && (jump.DoReturnOf? ==> Sp > old(Sp))
      ensures StepOf(jump, Words()) == DoApply(BCO(bco), old(Words()), Size())
    {
      var n, m := NArgs(f), NWords(f);
      if bco.arity < n {
        Shuffle(bco.arity, Ap(ApP(n - bco.arity)));
        return RunBcoFun(bco);
      } else if bco.arity == n {
        Sp := Sp + 1;
        return RunBcoFun(bco);
      } else {
        var pap := NewPap(bco.arity - n, BCO(bco), [], m);
        assert [] + old(Words())[1..1 + m] == old(Words())[1..1 + m];
        return DoReturnOf(pap);
      }
    }

    /** The first words after the top one, gap, and the rest, all under payload. */
    method ShuffleUnpack(arity: nat, gap: Word, payload: seq<Word>)
      requires Sp + 1 + arity <= words.Length && |payload| <= Sp
      modifies this`Sp, words
      ensures Sp == old(Sp) - |payload|
      ensures Words() == payload + old(Words()[1..1 + arity] + [gap] + Words()[1 + arity..])
    {
      Shuffle(arity, gap);
      hide Words;
      Unpack(payload);
    }

    /** The words below the top one, under payload. */
    method PopUnpack(payload: seq<Word>)
      requires |payload| <= Sp + 1 <= words.Length
      modifies this`Sp, words
      ensures Sp == old(Sp) + 1 - |payload| && Words() == payload + old(Words())[1..]
    {
      Sp := Sp + 1;
      Unpack(payload);
    }

    /** do_apply, for a PAP of a BCO. */
    method ApplyPap(pap: Closure, f: Frame) returns (jump: Jump)
      requires Valid() && AtApply(Words()) && words[Sp] == Ap(f) && pap.PAP? && pap.fun.BCO? && pap.arity > 0
      modifies this`Sp, words
      ensures Sp <= words.Length && (jump.ToScheduler? || Valid()) && (jump.DoReturnOf? ==> Sp > old(Sp))
      ensures StepOf(jump, Words()) == DoApply(pap, old(Words()), Size())
    {
      var n, m := NArgs(f), NWords(f);
      assert |Words()| == words.Length - Sp && Words()[0].frame == f;
      hide Words;
      if Sp < SpLim + |pap.payload| + 1 {
        Enter(pap);
        return ToScheduler(true);
      }
      if pap.arity < n {
        ShuffleUnpack(pap.arity, Ap(ApP(n - pap.arity)), pap.payload);
        return RunBcoFun(pap.fun.bco);
      } else if pap.arity == n {
        PopUnpack(pap.payload);
        return RunBcoFun(pap.fun.bco);
      } else {
        var more := NewPap(pap.arity - n, pap.fun, pap.payload, m);
        return DoReturnOf(more);
      }
    }

    method Apply(c: Closure, f: Frame) returns (jump: Jump)
      requires Valid() && AtApply(Words()) && words[Sp] == Ap(f) && Applicable(c)
      modifies this`Sp, words
      ensures Sp <= words.Length && (jump.ToScheduler? || Valid()) && (jump.DoReturnOf? ==> Sp > old(Sp))
      ensures StepOf(jump, Words()) == DoApply(c, old(Words()), Size())
    {
      if c.PAP? && c.fun.BCO? {
        jump := ApplyPap(c, f);
      } else if c.BCO? {
        jump := ApplyBco(c.bco, f);
      } else {
        Enter(c);
        jump := ToScheduler(false);
      }
    }

    /** do_return: the stack frames on top are applied or updated until a function runs or the value goes elsewhere.
        made: the closures that updateThunk is called with, and what for. */
    method Return(c0: Closure) returns (exit: Exit, made: seq<(Word, Closure)>)
      requires Valid() && Applicable(c0)
      modifies this`Sp, words
      ensures Sp <= words.Length
      ensures (OutcomeOf(exit, Words()), made) == DoReturn(c0, old(Words()), Size())
    {
      var c := c0;
      made := [];
      ghost var all := DoReturn(c, Words(), Size());
      assert [] + all.1 == all.1;
      hide DoReturn, DoApply, Due;
      while true
        invariant Valid() && Applicable(c) && Due(c, Words(), Size(), made, all)
        decreases words.Length - Sp
      {
        ghost var s := Words();
        Returned(c, s, Size(), made, all);
        if Sp < words.Length && words[Sp].Ap? && Known(words[Sp].frame)
            && Sp + 1 + NWords(words[Sp].frame) <= words.Length {
          var jump := Apply(c, words[Sp].frame);
          if jump.DoReturnOf? {
            c := jump.c;
          } else {
            return if jump.RunBcoFun? then RunFunction(jump.bco) else LeaveTo(jump.overflow), made;
          }
        } else if Sp + 1 < words.Length && words[Sp].UpdFrame? {
          made := made + [(words[Sp + 1], c)];
          Sp := Sp + UPDATE_FRAME_SIZE;
          assert Words() == s[UPDATE_FRAME_SIZE..];
        } else if Sp + 1 < words.Length && words[Sp].RetBCO? {
          Unpack([Ptr(c)]);
          return RunContinuation, made;
        } else {
          Enter(c);
          return LeaveTo(false), made;
        }
      }
    }

    /** eval: indirections are followed, and an AP pushes an update frame and its payload. */
    method Evaluate(c0: Closure) returns (exit: Exit, made: seq<(Word, Closure)>)
      requires Valid() && Evaluable(Followed(c0))
      modifies this`Sp, words
      ensures Sp <= words.Length
      ensures (OutcomeOf(exit, Words()), made) == Eval(c0, old(Words()), Size())
    {
      var c := c0;
      while c.IND?
        invariant Followed(c) == Followed(c0)
        decreases c
      {
        c := c.indirectee;
      }
      hide DoReturn;
      made := [];
      if c.AP? {
        if Sp < SpLim + |c.apPayload| + UPDATE_FRAME_SIZE {
          Enter(c);
          exit := LeaveTo(true);
        } else {
          Unpack([UpdFrame, Ptr(c)]);
          Unpack(c.apPayload);
          exit := RunFunction(c.apFun.bco);
        }
      } else if c.Unknown? {
        Enter(c);
        exit := LeaveTo(false);
      } else {
        exit, made := Return(c);
      }
    }
  }
}
