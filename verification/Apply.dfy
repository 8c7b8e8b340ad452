/**
 Applying byte-code functions, after the do_return and do_apply parts of interpretBCO in
 kernel/rts/Interpreter.c, as functions on the words of the stack, the top first.
 Words are 64 bits wide.
 */
module Apply {

  const UPDATE_FRAME_SIZE := 2
  const MAX_POINTER_ARGS := 6

  datatype Bco = Bco(id: nat, arity: nat)

  datatype Closure =
    | BCO(bco: Bco)
    | PAP(arity: nat, fun: Closure, payload: seq<Word>)
    | AP(apFun: Closure, apPayload: seq<Word>)
    | IND(indirectee: Closure)
    | Constr(con: nat)             // and everything else in weak head normal form
    | Unknown(id: nat)

  /** stg_ap_v_info up to stg_ap_pppppp_info. */
  datatype Frame = ApV | ApF | ApD | ApL | ApN | ApP(k: nat)

  datatype Word = Ap(frame: Frame) | UpdFrame | RetBCO | EnterInfo | Ptr(closure: Closure) | Raw(bits: int)

  /** An argument is a few words, none at all for a void one. */
  type Arg = seq<Word>

  predicate Known(f: Frame) {
    f.ApP? ==> 1 <= f.k <= MAX_POINTER_ARGS
  }

  /** n and m of the source: the number of arguments of a frame, and the words they take up. */
  function NArgs(f: Frame): nat {
    if f.ApP? then f.k else 1
  }

  function NWords(f: Frame): nat {
    match f case ApV => 0 case ApP(k) => k case _ => 1
  }

  /** The arguments of a frame, from the words after its info pointer. */
  function ArgsOf(f: Frame, ws: seq<Word>): (args: seq<Arg>)
    requires |ws| == NWords(f)
    ensures |args| == NArgs(f)
  {
    if f.ApP? then seq(f.k, i requires 0 <= i < f.k => [ws[i]]) else [ws]
  }

  function Concat(args: seq<Arg>): seq<Word> {
    if args == [] then [] else args[0] + Concat(args[1..])
  }

  // ----- what is on the stack -----

  datatype Item = Argument(arg: Arg) | Update(updatee: Word)

  predicate AtApply(s: seq<Word>) {
    s != [] && s[0].Ap? && Known(s[0].frame) && |s| >= 1 + NWords(s[0].frame)
  }

  predicate AtUpdate(s: seq<Word>) {
    |s| >= UPDATE_FRAME_SIZE && s[0].UpdFrame?
  }

  function AsItems(args: seq<Arg>): (items: seq<Item>)
    ensures |items| == |args| && forall i :: 0 <= i < |args| ==> items[i] == Argument(args[i])
  {
    seq(|args|, i requires 0 <= i < |args| => Argument(args[i]))
  }

  function TopArgs(s: seq<Word>): seq<Arg>
    requires AtApply(s)
  {
    ArgsOf(s[0].frame, s[1..1 + NWords(s[0].frame)])
  }

  function Under(s: seq<Word>): seq<Word>
    requires AtApply(s)
  {
    s[1 + NWords(s[0].frame)..]
  }

  /** The arguments and updates waiting on the stack, down to the first frame of another kind. */
  function Items(s: seq<Word>): seq<Item>
    decreases |s|
  {
    if AtApply(s) then AsItems(TopArgs(s)) + Items(Under(s))
    else if AtUpdate(s) then [Update(s[1])] + Items(s[UPDATE_FRAME_SIZE..])
    else []
  }

  function Rest(s: seq<Word>): seq<Word>
    decreases |s|
  {
    if AtApply(s) then Rest(Under(s))
    else if AtUpdate(s) then Rest(s[UPDATE_FRAME_SIZE..])
    else s
  }

  // ----- one argument at a time -----

  datatype Curried =
    | Run(args: seq<Arg>, updates: seq<(Word, seq<Arg>)>, left: seq<Item>)
    | Value(held: seq<Arg>, updates: seq<(Word, seq<Arg>)>)

  function Logged(u: (Word, seq<Arg>), r: Curried): Curried {
    r.(updates := [u] + r.updates)
  }

  /** The reference: a function of the given arity holding some arguments is given those on the stack one by one;
      an update frame is updated with the function and what it holds. */
  function Curry(arity: nat, held: seq<Arg>, items: seq<Item>): Curried
    decreases |items|
  {
    if items == [] then Value(held, [])
    else
      match items[0]
      case Argument(a) =>
        if |held| + 1 == arity then Run(held + [a], [], items[1..]) else Curry(arity, held + [a], items[1..])
      case Update(u) => Logged((u, held), Curry(arity, held, items[1..]))
  }

  lemma {:induction false} CurryArgs(arity: nat, held: seq<Arg>, args: seq<Arg>, items: seq<Item>)
    requires |held| + |args| < arity
    ensures Curry(arity, held, AsItems(args) + items) == Curry(arity, held + args, items)
    decreases |args|
  {
    if args == [] {
      assert AsItems(args) + items == items && held + args == held;
    } else {
      assert (AsItems(args) + items)[1..] == AsItems(args[1..]) + items;
      assert (held + [args[0]]) + args[1..] == held + args;
      CurryArgs(arity, held + [args[0]], args[1..], items);
    }
  }

  lemma {:induction false} CurryRuns(arity: nat, held: seq<Arg>, args: seq<Arg>, k: nat, items: seq<Item>)
    requires 0 < k <= |args| && |held| + k == arity
    ensures Curry(arity, held, AsItems(args) + items) == Run(held + args[..k], [], AsItems(args[k..]) + items)
    decreases k
  {
    var all := AsItems(args) + items;
    assert all[1..] == AsItems(args[1..]) + items;
    if k == 1 {
      assert held + args[..1] == held + [args[0]];
    } else {
      CurryRuns(arity, held + [args[0]], args[1..], k - 1, items);
      assert (held + [args[0]]) + args[1..][..k - 1] == held + args[..k];
      assert args[1..][k - 1..] == args[k..];
    }
  }

  // ----- closures -----

  /** c is the function b holding some of its arguments: fewer than its arity, in a PAP unless there are none. */
  predicate Holding(c: Closure, b: Bco, held: seq<Arg>) {
    if c.BCO? then c.bco == b && held == [] && b.arity > 0
    else c.PAP? && c.fun == BCO(b) && c.payload == Concat(held) && c.arity > 0 && c.arity + |held| == b.arity
  }

  /** The updates made are those of the reference, each with a closure for the function and what it held. */
  ghost predicate SameUpdates(b: Bco, made: seq<(Word, Closure)>, updates: seq<(Word, seq<Arg>)>) {
    |made| == |updates| && forall i :: 0 <= i < |made| ==>
      made[i].0 == updates[i].0 && Holding(made[i].1, b, updates[i].1)
  }

  // ----- do_apply -----

  datatype Step =
    | RunFun(bco: Bco, s: seq<Word>)          // run_BCO_fun
    | Return(c: Closure, s: seq<Word>)        // do_return
    | Scheduler(s: seq<Word>, overflow: bool)   // back to the scheduler, to enter the closure on top

  function Defer(c: Closure, s: seq<Word>, overflow: bool): Step {
    Scheduler([EnterInfo, Ptr(c)] + s, overflow)
  }

  /** Too many arguments: those the function takes, and a smaller frame for the others. */
  function Shuffled(arity: nat, s: seq<Word>): seq<Word>
    requires AtApply(s) && s[0].frame.ApP? && arity < s[0].frame.k
  {
    s[1..1 + arity] + [Ap(ApP(s[0].frame.k - arity))] + s[1 + arity..]
  }

  /** What the source asserts of the functions it applies. */
  predicate Applicable(c: Closure) {
    && (c.BCO? ==> c.bco.arity > 0)
    && (c.PAP? && c.fun.BCO? ==> c.arity > 0)
  }

  /** size: the words between the stack limit and its bottom. */
  function DoApply(c: Closure, s: seq<Word>, size: nat): Step
    requires AtApply(s) && Applicable(c)
  {
    var n, m := NArgs(s[0].frame), NWords(s[0].frame);
    match c
    case PAP(arity, fun, payload) =>
      if !fun.BCO? then Defer(c, s, false)
      else if |s| + |payload| + 1 > size then Defer(c, s, true)
      else if arity < n then RunFun(fun.bco, payload + Shuffled(arity, s))
      else if arity == n then RunFun(fun.bco, payload + s[1..])
      else Return(PAP(arity - n, fun, payload + s[1..1 + m]), Under(s))
    case BCO(bco) =>
      if bco.arity < n then RunFun(bco, Shuffled(bco.arity, s))
      else if bco.arity == n then RunFun(bco, s[1..])
      else Return(PAP(bco.arity - n, c, s[1..1 + m]), Under(s))
    case _ => Defer(c, s, false)
  }

  lemma {:induction false} ConcatAppend(a: seq<Arg>, b: seq<Arg>)
    ensures Concat(a + b) == Concat(a) + Concat(b)
  {
    if a == [] {
      assert a + b == b;
    } else {
      assert (a + b)[1..] == a[1..] + b;
      ConcatAppend(a[1..], b);
    }
  }

  lemma {:induction false} ConcatArgs(f: Frame, ws: seq<Word>)
    requires |ws| == NWords(f)
    ensures Concat(ArgsOf(f, ws)) == ws
  {
    if f.ApP? {
      ConcatSingles(ws);
      assert ArgsOf(f, ws) == Singles(ws);
    } else {
      assert [ws][1..] == [];
    }
  }

  function Singles(ws: seq<Word>): (args: seq<Arg>)
    ensures |args| == |ws| && forall i :: 0 <= i < |ws| ==> args[i] == [ws[i]]
  {
    seq(|ws|, i requires 0 <= i < |ws| => [ws[i]])
  }

  lemma {:induction false} ConcatSingles(ws: seq<Word>)
    ensures Concat(Singles(ws)) == ws
  {
    if ws != [] {
      assert Singles(ws)[1..] == Singles(ws[1..]);
      ConcatSingles(ws[1..]);
    }
  }

  lemma SinglesSplit(ws: seq<Word>, k: nat)
    requires k <= |ws|
    ensures Singles(ws)[..k] == Singles(ws[..k]) && Singles(ws)[k..] == Singles(ws[k..])
  {
  }

  /** A stack with a frame on top, in pieces. */
  lemma TopFrame(f: Frame, ws: seq<Word>, under: seq<Word>)
    requires Known(f) && |ws| == NWords(f)
    ensures var s := [Ap(f)] + (ws + under);
            AtApply(s) && Under(s) == under && TopArgs(s) == ArgsOf(f, ws) && s[1..] == ws + under
    ensures f.ApP? ==> ArgsOf(f, ws) == Singles(ws)
  {
    var s := [Ap(f)] + (ws + under);
    assert s[1..1 + |ws|] == ws && s[1 + |ws|..] == under;
  }

  lemma InPieces(s: seq<Word>)
    requires AtApply(s)
    ensures s == [Ap(s[0].frame)] + (s[1..1 + NWords(s[0].frame)] + Under(s))
  {
  }

  lemma ShuffledPieces(arity: nat, k: nat, ws: seq<Word>, under: seq<Word>, s: seq<Word>)
    requires 0 < arity < k == |ws| && k <= MAX_POINTER_ARGS && s == [Ap(ApP(k))] + (ws + under)
    ensures Shuffled(arity, s) == ws[..arity] + ([Ap(ApP(k - arity))] + (ws[arity..] + under))
  {
    TopFrame(ApP(k), ws, under);
    assert s[1..1 + arity] == ws[..arity];
    assert s[1 + arity..] == ws[arity..] + under;
  }

  lemma ShuffledItems(arity: nat, s: seq<Word>) returns (args: seq<Arg>, u: seq<Word>)
    requires AtApply(s) && s[0].frame.ApP? && 0 < arity < s[0].frame.k
    ensures args == TopArgs(s) && Shuffled(arity, s) == Concat(args[..arity]) + u
    ensures Items(s) == AsItems(args) + Items(Under(s)) && Items(u) == AsItems(args[arity..]) + Items(Under(s))
    ensures Rest(s) == Rest(u)
  {
    var k, under := s[0].frame.k, Under(s);
    var ws := s[1..1 + k];
    InPieces(s);
    TopFrame(ApP(k), ws, under);
    ShuffledPieces(arity, k, ws, under, s);
    args, u := Singles(ws), [Ap(ApP(k - arity))] + (ws[arity..] + under);
    TopFrame(ApP(k - arity), ws[arity..], under);
    SinglesSplit(ws, arity);
    ConcatSingles(ws[..arity]);
    hide AsItems, Singles, ArgsOf, TopArgs, Under, Concat;
  }

  lemma Glue(held: seq<Arg>, args: seq<Arg>, u: seq<Word>)
    ensures Concat(held) + (Concat(args) + u) == Concat(held + args) + u
  {
    ConcatAppend(held, args);
  }

  /** Too many arguments: the function runs on those it takes, and a smaller frame holds the others. */
  lemma TooMany(b: Bco, held: seq<Arg>, s: seq<Word>)
    requires AtApply(s) && |held| < b.arity < |held| + NArgs(s[0].frame)
    ensures s[0].frame.ApP?
    ensures Runs(b, Curry(b.arity, held, Items(s)), Concat(held) + Shuffled(b.arity - |held|, s), Rest(s))
  {
    var arity := b.arity - |held|;
    var args, u := ShuffledItems(arity, s);
    hide Items, Rest, Shuffled, AsItems, AtApply, Under, Curry, Runs, Concat;
    CurryRuns(b.arity, held, args, arity, Items(Under(s)));
    RunsOn(b, held + args[..arity], u, Curry(b.arity, held, Items(s)), Rest(s));
    Glue(held, args[..arity], u);
  }

  lemma RunsOn(b: Bco, args: seq<Arg>, u: seq<Word>, r: Curried, rest: seq<Word>)
    requires |args| == b.arity && r == Run(args, [], Items(u)) && Rest(u) == rest
    ensures Runs(b, r, Concat(args) + u, rest)
  {
    assert (Concat(args) + u)[|Concat(args)|..] == u;
  }

  lemma TopItems(s: seq<Word>)
    requires AtApply(s)
    ensures Items(s) == AsItems(TopArgs(s)) + Items(Under(s)) && Rest(s) == Rest(Under(s))
    ensures s[1..] == Concat(TopArgs(s)) + Under(s)
  {
    InPieces(s);
    ConcatArgs(s[0].frame, s[1..1 + NWords(s[0].frame)]);
  }

  lemma JustEnough(b: Bco, held: seq<Arg>, s: seq<Word>)
    requires AtApply(s) && |held| < b.arity == |held| + NArgs(s[0].frame)
    ensures Runs(b, Curry(b.arity, held, Items(s)), Concat(held) + s[1..], Rest(s))
  {
    var args, u := TopArgs(s), Under(s);
    TopItems(s);
    assert args[..|args|] == args && args[|args|..] == [] && AsItems([]) + Items(u) == Items(u);
    hide Items, Rest, AsItems, AtApply, Under, TopArgs, Curry, Runs, Concat;
    CurryRuns(b.arity, held, args, |args|, Items(u));
    RunsOn(b, held + args, u, Curry(b.arity, held, Items(s)), Rest(s));
    Glue(held, args, u);
  }

  lemma TooFew(b: Bco, held: seq<Arg>, s: seq<Word>)
    requires AtApply(s) && |held| + NArgs(s[0].frame) < b.arity
    ensures Curry(b.arity, held, Items(s)) == Curry(b.arity, held + TopArgs(s), Items(Under(s)))
    ensures Rest(s) == Rest(Under(s)) && Concat(held + TopArgs(s)) == Concat(held) + s[1..1 + NWords(s[0].frame)]
  {
    CurryArgs(b.arity, held, TopArgs(s), Items(Under(s)));
    ConcatAppend(held, TopArgs(s));
    ConcatArgs(s[0].frame, s[1..1 + NWords(s[0].frame)]);
  }

  /** What one call of do_apply comes to, in terms of the reference. */
  ghost predicate StepOk(c: Closure, b: Bco, held: seq<Arg>, s: seq<Word>, size: nat, step: Step)
    requires AtApply(s)
  {
    match step
    case RunFun(b', t) => b' == b && Runs(b, Curry(b.arity, held, Items(s)), t, Rest(s))
    case Return(c', t) =>
      && Holding(c', b, held + TopArgs(s)) && t == Under(s)
      && Curry(b.arity, held, Items(s)) == Curry(b.arity, held + TopArgs(s), Items(t)) && Rest(t) == Rest(s)
    case Scheduler(t, overflow) => t == [EnterInfo, Ptr(c)] + s && overflow && NoRoom(c, s, size)
  }

  /** The stack check before a PAP is unpacked fails. */
  predicate NoRoom(c: Closure, s: seq<Word>, size: nat) {
    c.PAP? && AtApply(s) && |s| + |c.payload| + 1 > size
  }

  lemma BcoStep(b: Bco, s: seq<Word>, size: nat)
    requires AtApply(s) && b.arity > 0
    ensures StepOk(BCO(b), b, [], s, size, DoApply(BCO(b), s, size))
  {
    var n := NArgs(s[0].frame);
    assert Concat([]) + s[1..] == s[1..];
    if b.arity < n {
      TooMany(b, [], s);
      assert Concat([]) + Shuffled(b.arity, s) == Shuffled(b.arity, s);
    } else if b.arity == n {
      JustEnough(b, [], s);
    } else {
      TooFew(b, [], s);
      var ws := s[1..1 + NWords(s[0].frame)];
      assert Concat([]) + ws == ws;
    }
    hide Runs, Curry, Items, Rest, Shuffled, AtApply, ArgsOf;
  }

  lemma PapStep(c: Closure, b: Bco, held: seq<Arg>, s: seq<Word>, size: nat)
    requires AtApply(s) && c.PAP? && Holding(c, b, held)
    ensures StepOk(c, b, held, s, size, DoApply(c, s, size))
  {
    var n, arity := NArgs(s[0].frame), c.arity;
    if arity < n {
      TooMany(b, held, s);
    } else if arity == n {
      JustEnough(b, held, s);
    } else {
      TooFew(b, held, s);
    }
    hide Runs, Curry, Items, Rest, Shuffled, AtApply, ArgsOf, Concat;
  }

  /** One call of do_apply against the reference: a function is run with exactly its arity of arguments, in order, on
      top of the others; a PAP holds one frame more; and the scheduler is called exactly when there is no room to unpack
      a PAP, nothing having been consumed. */
  lemma StepKeeps(c: Closure, b: Bco, held: seq<Arg>, s: seq<Word>, size: nat)
    requires AtApply(s) && Holding(c, b, held)
    ensures Applicable(c) && StepOk(c, b, held, s, size, DoApply(c, s, size))
    ensures DoApply(c, s, size).Scheduler? <==> NoRoom(c, s, size)
  {
    if c.PAP? {
      PapStep(c, b, held, s, size);
    } else {
      BcoStep(b, s, size);
    }
  }

  /** The stack t on which b is run: the arguments of the reference, then what the reference leaves. */
  ghost predicate Runs(b: Bco, r: Curried, t: seq<Word>, rest: seq<Word>) {
    && r.Run? && |r.args| == b.arity && r.updates == []
    && Concat(r.args) <= t && Items(t[|Concat(r.args)|..]) == r.left && Rest(t[|Concat(r.args)|..]) == rest
  }

  // ----- do_return -----

  datatype Outcome =
    | RunBco(bco: Bco, s: seq<Word>)             // run_BCO_fun
    | Resume(s: seq<Word>)                       // run_BCO_return, the value on top of the continuation
    | Yield(s: seq<Word>, overflow: bool)        // back to the scheduler

  /** From do_return until a byte-code function runs or the value goes elsewhere; with the updates made. */
  function DoReturn(c: Closure, s: seq<Word>, size: nat): (Outcome, seq<(Word, Closure)>)
    requires Applicable(c)
    decreases |s|
  {
    if AtApply(s) then
      match DoApply(c, s, size)
      case RunFun(b, t) => (RunBco(b, t), [])
      case Return(c', t) => DoReturn(c', t, size)
      case Scheduler(t, overflow) => (Yield(t, overflow), [])
    else if AtUpdate(s) then
      var (o, made) := DoReturn(c, s[UPDATE_FRAME_SIZE..], size);
      (o, [(s[1], c)] + made)
    else if AtBco(s) then (Resume([Ptr(c)] + s), [])
    else (Yield([EnterInfo, Ptr(c)] + s, false), [])
  }

  function Before(ups: seq<(Word, seq<Arg>)>, r: Curried): Curried {
    r.(updates := ups + r.updates)
  }

  /** Where the interpreter has got to, against the reference r from the start: ups have been made, and what remains to
      be done is either to run b on its arguments, or what the reference does with c and t. */
  ghost predicate Reached(b: Bco, r: Curried, rest: seq<Word>, made: seq<(Word, Closure)>, ups: seq<(Word, seq<Arg>)>,
                          c: Closure, held: seq<Arg>, t: seq<Word>) {
    && SameUpdates(b, made, ups) && Holding(c, b, held)
    && r == Before(ups, Curry(b.arity, held, Items(t))) && Rest(t) == rest
  }

  ghost predicate Ran(b: Bco, r: Curried, rest: seq<Word>, made: seq<(Word, Closure)>, t: seq<Word>) {
    r.Run? && SameUpdates(b, made, r.updates) && Runs(b, Run(r.args, [], r.left), t, rest)
  }

  lemma {:induction false} ReachedNothing(b: Bco, s: seq<Word>, c: Closure, held: seq<Arg>)
    requires Holding(c, b, held)
    ensures Reached(b, Curry(b.arity, held, Items(s)), Rest(s), [], [], c, held, s)
  {
    var r := Curry(b.arity, held, Items(s));
    assert [] + r.updates == r.updates;
    assert Before([], r) == r;
  }

  /** An update made first. */
  lemma ReachedUpdate(b: Bco, s: seq<Word>, c: Closure, held: seq<Arg>, made: seq<(Word, Closure)>,
                      ups: seq<(Word, seq<Arg>)>, c': Closure, held': seq<Arg>, t: seq<Word>)
    requires !AtApply(s) && AtUpdate(s) && Holding(c, b, held)
    requires Reached(b, Curry(b.arity, held, Items(s[UPDATE_FRAME_SIZE..])), Rest(s), made, ups, c', held', t)
    ensures Reached(b, Curry(b.arity, held, Items(s)), Rest(s), [(s[1], c)] + made, [(s[1], held)] + ups, c', held', t)
  {
    var u := s[UPDATE_FRAME_SIZE..];
    FirstUpdate(b, s, held);
    SameUpdatesCons(b, s[1], c, held, made, ups);
    BeforeCons((s[1], held), ups, Curry(b.arity, held', Items(t)));
    hide SameUpdates, Holding, Curry, Items, Rest, Before, Logged;
  }

  lemma BeforeCons(u: (Word, seq<Arg>), ups: seq<(Word, seq<Arg>)>, r: Curried)
    ensures Logged(u, Before(ups, r)) == Before([u] + ups, r)
  {
    assert [u] + (ups + r.updates) == ([u] + ups) + r.updates;
  }

  lemma SameUpdatesCons(b: Bco, w: Word, c: Closure, held: seq<Arg>, made: seq<(Word, Closure)>,
                        ups: seq<(Word, seq<Arg>)>)
    requires SameUpdates(b, made, ups) && Holding(c, b, held)
    ensures SameUpdates(b, [(w, c)] + made, [(w, held)] + ups)
  {
  }

  lemma FirstUpdate(b: Bco, s: seq<Word>, held: seq<Arg>)
    requires !AtApply(s) && AtUpdate(s)
    ensures Curry(b.arity, held, Items(s)) == Logged((s[1], held), Curry(b.arity, held, Items(s[UPDATE_FRAME_SIZE..])))
  {
    assert Items(s)[1..] == Items(s[UPDATE_FRAME_SIZE..]);
  }

  lemma RanUpdate(b: Bco, s: seq<Word>, c: Closure, held: seq<Arg>, made: seq<(Word, Closure)>, t: seq<Word>)
    requires !AtApply(s) && AtUpdate(s) && Holding(c, b, held)
    requires Ran(b, Curry(b.arity, held, Items(s[UPDATE_FRAME_SIZE..])), Rest(s), made, t)
    ensures Ran(b, Curry(b.arity, held, Items(s)), Rest(s), [(s[1], c)] + made, t)
  {
    FirstUpdate(b, s, held);
    var r := Curry(b.arity, held, Items(s[UPDATE_FRAME_SIZE..]));
    SameUpdatesCons(b, s[1], c, held, made, r.updates);
    hide SameUpdates, Holding, Curry, Items, Rest, Runs;
  }

  /** An interpreted continuation, to which a value can be returned. */
  predicate AtBco(s: seq<Word>) {
    |s| > 1 && s[0].RetBCO?
  }

  /** The whole of do_return and do_apply against the reference, for a byte-code function holding some arguments:
      whatever shuffling, building and unpacking of PAPs there is, the function runs on the arguments the reference runs
      it on, with the same updates made and the same things left on the stack; if it does not run, the closure returned
      or handed to the scheduler, with the stack under it, stands for what the reference has still to do. This is
      nothing but to return to the frame on top, an interpreted one or another, unless there is no room to unpack a
      PAP. */
  lemma {:induction false} InterpreterCurries(c: Closure, b: Bco, held: seq<Arg>, s: seq<Word>, size: nat)
    returns (c': Closure, held': seq<Arg>, ups: seq<(Word, seq<Arg>)>, t': seq<Word>)
    requires Holding(c, b, held)
    ensures Applicable(c)
    ensures var (o, made) := DoReturn(c, s, size);
            var r := Curry(b.arity, held, Items(s));
            match o
            case RunBco(b', t) => b' == b && Ran(b, r, Rest(s), made, t)
            case Resume(t) =>
              && t == [Ptr(c')] + t' && Reached(b, r, Rest(s), made, ups, c', held', t')
              && Items(t') == [] && AtBco(t')
            case Yield(t, overflow) =>
              && t == [EnterInfo, Ptr(c')] + t' && Reached(b, r, Rest(s), made, ups, c', held', t')
              && if overflow then NoRoom(c', t', size) else Items(t') == [] && !AtBco(t')
    decreases |s|
  {
    c', held', ups, t' := c, held, [], s;
    ReachedNothing(b, s, c, held);
    if AtApply(s) {
      StepKeeps(c, b, held, s, size);
      hide Runs, Curry, Items, Rest, DoApply, Reached, Holding;
      match DoApply(c, s, size)
      case Return(c1, t) =>
        c', held', ups, t' := InterpreterCurries(c1, b, held + TopArgs(s), t, size);
      case _ =>
    } else if AtUpdate(s) {
      var u := s[UPDATE_FRAME_SIZE..];
      assert Rest(s) == Rest(u);
      c', held', ups, t' := InterpreterCurries(c, b, held, u, size);
      var made := DoReturn(c, u, size).1;
      if DoReturn(c, u, size).0.RunBco? {
        RanUpdate(b, s, c, held, made, DoReturn(c, u, size).0.s);
      } else {
        ReachedUpdate(b, s, c, held, made, ups, c', held', t');
        ups := [(s[1], held)] + ups;
      }
      hide Runs, Curry, Items, Rest, DoApply, Reached, Holding, Ran;
    }
  }

  // ----- exactly when -----

  /** The stack below the update frames on top. */
  function BelowUpdates(s: seq<Word>): seq<Word>
    decreases |s|
  {
    if !AtApply(s) && AtUpdate(s) then BelowUpdates(s[UPDATE_FRAME_SIZE..]) else s
  }

  predicate Overflows(o: Outcome) {
    o.Yield? && o.overflow
  }

  /** Where there is room to unpack once there always is: what a PAP gains the stack has lost. */
  lemma {:induction false} RoomStays(c: Closure, b: Bco, held: seq<Arg>, s: seq<Word>, size: nat)
    requires Holding(c, b, held) && |s| + (if c.PAP? then |c.payload| + 1 else 0) <= size
    ensures !Overflows(DoReturn(c, s, size).0)
    decreases |s|
  {
    if AtApply(s) {
      StepKeeps(c, b, held, s, size);
      match DoApply(c, s, size)
      case Return(c1, t) => RoomStays(c1, b, held + TopArgs(s), t, size);
      case _ =>
    } else if AtUpdate(s) {
      RoomStays(c, b, held, s[UPDATE_FRAME_SIZE..], size);
    }
  }

  /** So the check can only fail for the closure returned in the first place, at the first frame that is no update. */
  lemma {:induction false} OverflowIff(c: Closure, b: Bco, held: seq<Arg>, s: seq<Word>, size: nat)
    requires Holding(c, b, held) && |s| <= size
    ensures Overflows(DoReturn(c, s, size).0) <==> NoRoom(c, BelowUpdates(s), size)
    decreases |s|
  {
    if AtApply(s) {
      if !NoRoom(c, s, size) {
        RoomStays(c, b, held, s, size);
      }
    } else if AtUpdate(s) {
      OverflowIff(c, b, held, s[UPDATE_FRAME_SIZE..], size);
    }
  }

  /** On a stack within its limit the function runs exactly when the reference runs it and the PAP returned, if it is
      one, can be unpacked over the first frame that is no update. */
  lemma RunsIff(c: Closure, b: Bco, held: seq<Arg>, s: seq<Word>, size: nat)
    requires Holding(c, b, held) && |s| <= size
    ensures DoReturn(c, s, size).0.RunBco? <==> Curry(b.arity, held, Items(s)).Run? && !NoRoom(c, BelowUpdates(s), size)
  {
    OverflowIff(c, b, held, s, size);
    var c', held', ups, t' := InterpreterCurries(c, b, held, s, size);
    hide DoReturn, Holding, NoRoom, SameUpdates, Runs, Rest;
    if !DoReturn(c, s, size).0.RunBco? && !Overflows(DoReturn(c, s, size).0) {
      assert Curry(b.arity, held', []) == Value(held', []);
    }
  }

  // ----- eval -----

  function Followed(c: Closure): (r: Closure)
    ensures !r.IND?
  {
    if c.IND? then Followed(c.indirectee) else c
  }

  /** What the source asserts of the closures it evaluates. */
  predicate Evaluable(c: Closure) {
    Applicable(c) && (c.AP? ==> c.apFun.BCO?)
  }

  /** Evaluating a closure: an AP is run on its payload, over an update frame for itself. */
  function Eval(c: Closure, s: seq<Word>, size: nat): (Outcome, seq<(Word, Closure)>)
    requires Evaluable(Followed(c))
  {
    var r := Followed(c);
    match r
    case AP(fun, payload) =>
      if |s| + |payload| + UPDATE_FRAME_SIZE > size then (Yield([EnterInfo, Ptr(r)] + s, true), [])
      else (RunBco(fun.bco, payload + ([UpdFrame, Ptr(r)] + s)), [])
    case Unknown(_) => (Yield([EnterInfo, Ptr(r)] + s, false), [])
    case _ => DoReturn(r, s, size)
  }

  /** Under the payload of an AP is an update of the AP itself, then what was there. */
  lemma ApUpdatesItself(c: Closure, s: seq<Word>, size: nat)
    requires Evaluable(Followed(c)) && Followed(c).AP? && Eval(c, s, size).0.RunBco?
    ensures var ap, t := Followed(c), Eval(c, s, size).0.s;
            && t[..|ap.apPayload|] == ap.apPayload
            && Items(t[|ap.apPayload|..]) == [Update(Ptr(ap))] + Items(s)
            && Rest(t[|ap.apPayload|..]) == Rest(s)
  {
    var ap, t := Followed(c), Eval(c, s, size).0.s;
    var u := [UpdFrame, Ptr(ap)] + s;
    assert t[|ap.apPayload|..] == u && u[UPDATE_FRAME_SIZE..] == s;
  }

  /** From c, indirections and nothing else lead to v. */
  predicate IndirectsTo(c: Closure, v: Closure) {
    c == v || (c.IND? && IndirectsTo(c.indirectee, v))
  }

  /** Evaluating a closure is evaluating what it indirects to. */
  lemma {:induction false} IndirectionsEvaluated(c: Closure, v: Closure, s: seq<Word>, size: nat)
    requires IndirectsTo(c, v)
    ensures Evaluable(Followed(c)) <==> Evaluable(Followed(v))
    ensures Evaluable(Followed(v)) ==> Eval(c, s, size) == Eval(v, s, size)
  {
    if c != v {
      IndirectionsEvaluated(c.indirectee, v, s, size);
    }
  }

  /** In weak head normal form, but not a function that the interpreter applies. */
  predicate PlainValue(v: Closure) {
    v.Constr? || (v.PAP? && !v.fun.BCO?)
  }

  /** On top of s are k update frames. Each of them is updated with v, and v goes itself to what is below: to be
      returned to an interpreted continuation, and to be entered by the scheduler on anything else,
      an apply frame among them. */
  ghost predicate GoesBelow(v: Closure, s: seq<Word>, k: nat, o: Outcome, made: seq<(Word, Closure)>) {
    && UPDATE_FRAME_SIZE * k <= |s| && |made| == k
    && (forall i :: 0 <= i < k ==> s[UPDATE_FRAME_SIZE * i].UpdFrame? && made[i] == (s[UPDATE_FRAME_SIZE * i + 1], v))
    && var below := s[UPDATE_FRAME_SIZE * k..];
       && !(|below| >= UPDATE_FRAME_SIZE && below[0].UpdFrame?)
       && o == if |below| > 1 && below[0].RetBCO? then Resume([Ptr(v)] + below)
               else Yield([EnterInfo, Ptr(v)] + below, false)
  }

  lemma {:induction false} ValueReturned(v: Closure, s: seq<Word>, size: nat) returns (k: nat)
    requires PlainValue(v)
    ensures Applicable(v)
    ensures var (o, made) := DoReturn(v, s, size);
            GoesBelow(v, s, k, o, made)
    decreases |s|
  {
    k := 0;
    assert s[0..] == s;
    if AtUpdate(s) {
      var u := s[UPDATE_FRAME_SIZE..];
      var k1 := ValueReturned(v, u, size);
      k := k1 + 1;
      assert s[UPDATE_FRAME_SIZE * k..] == u[UPDATE_FRAME_SIZE * k1..];
      forall i | 0 <= i < k
        ensures s[UPDATE_FRAME_SIZE * i].UpdFrame?
        ensures DoReturn(v, s, size).1[i] == (s[UPDATE_FRAME_SIZE * i + 1], v)
      {
        if i > 0 {
          assert u[UPDATE_FRAME_SIZE * (i - 1)] == s[UPDATE_FRAME_SIZE * i];
          assert u[UPDATE_FRAME_SIZE * (i - 1) + 1] == s[UPDATE_FRAME_SIZE * i + 1];
        }
      }
    }
  }

  /** A value is returned as it is, whatever indirections are evaluated to get to it. */
  lemma ValueEvaluated(c: Closure, v: Closure, s: seq<Word>, size: nat) returns (k: nat)
    requires IndirectsTo(c, v) && PlainValue(v)
    ensures Evaluable(Followed(c))
    ensures var (o, made) := Eval(c, s, size);
            GoesBelow(v, s, k, o, made)
  {
    IndirectionsEvaluated(c, v, s, size);
    k := ValueReturned(v, s, size);
    hide DoReturn;
  }

  /** A closure that the interpreter does not know is left to the scheduler to enter; an AP is run on its payload over
      an update frame for itself, or left to the scheduler when there is no room for that.  Nothing is updated. */
  lemma OthersEvaluated(c: Closure, v: Closure, s: seq<Word>, size: nat)
    requires IndirectsTo(c, v) && (v.Unknown? || (v.AP? && v.apFun.BCO?))
    ensures Evaluable(Followed(c))
    ensures var (o, made) := Eval(c, s, size);
            made == [] && if v.AP? && |v.apPayload| + UPDATE_FRAME_SIZE + |s| <= size
                          then o == RunBco(v.apFun.bco, v.apPayload + [UpdFrame, Ptr(v)] + s)
                          else o == Yield([EnterInfo, Ptr(v)] + s, v.AP?)
  {
    IndirectionsEvaluated(c, v, s, size);
    if v.AP? {
      assert v.apPayload + ([UpdFrame, Ptr(v)] + s) == v.apPayload + [UpdFrame, Ptr(v)] + s;
    }
  }

  /** Evaluating a byte-code function that holds some arguments agrees with the reference. */
  lemma FunctionEvaluated(c: Closure, v: Closure, b: Bco, held: seq<Arg>, s: seq<Word>, size: nat)
    returns (c': Closure, held': seq<Arg>, ups: seq<(Word, seq<Arg>)>, t': seq<Word>)
    requires IndirectsTo(c, v) && Holding(v, b, held)
    ensures Evaluable(Followed(c))
    ensures var (o, made) := Eval(c, s, size);
            var r := Curry(b.arity, held, Items(s));
            match o
            case RunBco(b', t) => b' == b && Ran(b, r, Rest(s), made, t)
            case Resume(t) =>
              && t == [Ptr(c')] + t' && Reached(b, r, Rest(s), made, ups, c', held', t')
              && Items(t') == [] && AtBco(t')
            case Yield(t, overflow) =>
              && t == [EnterInfo, Ptr(c')] + t' && Reached(b, r, Rest(s), made, ups, c', held', t')
              && if overflow then NoRoom(c', t', size) else Items(t') == [] && !AtBco(t')
  {
    IndirectionsEvaluated(c, v, s, size);
    assert Eval(v, s, size) == DoReturn(v, s, size);
    c', held', ups, t' := InterpreterCurries(v, b, held, s, size);
    hide DoReturn, Eval, Followed, Items, Curry, Rest, Ran, Reached, NoRoom, Holding;
  }
}
