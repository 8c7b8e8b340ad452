/**
 raiseAsync of kernel/rts/RaiseAsync.c with stop_here == NULL and no STM frames: a loop that walks
 the stack chunks with sp and frame, builds AP_STACKs and overwrites stack words, thunks and thread
 flags in place.  It is proved against Freeze.Strip.
 */
module RaiseAsync {
  import opened Base
  import opened Freeze

  const DUMMY_RET: Addr := 0         // &stg_dummy_ret_closure

  datatype WhatNext = ThreadRunGHC | ThreadKilled | ThreadOther

  /** A stack chunk; it grows towards index 0. next is the next_chunk word of its underflow frame. */
  class StgStack {
    const words: array<Word>
    const next: StgStack?
    var sp: nat

    constructor (words: array<Word>, sp: nat, next: StgStack?)
      ensures this.words == words && this.sp == sp && this.next == next
    {
      this.words, this.sp, this.next := words, sp, next;
    }
  }

  class Tso {
    var stackobj: StgStack
    var blockex: bool
    var interruptible: bool
    var what_next: WhatNext

    constructor (stack: StgStack)
      ensures stackobj == stack
    {
      stackobj, blockex, interruptible, what_next := stack, false, true, ThreadOther;
    }
  }

  /** The allocation area of a capability and the closures reachable through it. */
  class Nursery {
    var heap: Heap
    var hp: Addr

    constructor (hp: Addr)
      ensures heap == map[] && this.hp == hp
    {
      heap, this.hp := map[], hp;
    }
  }

  /** A chunk's words from a frame on: complete frames, an underflow frame exactly at the end of all but
      the last chunk, the stop frame exactly at the end of the last. */
  ghost predicate Tiles(w: seq<Word>, last: bool, limit: Addr)
    decreases |w|
  {
    && FrameOk(w, limit)
    && (if w[0].kind.StopFrame? then last && |w| == w[0].size
        else if w[0].kind.UnderflowFrame? then !last && |w| == w[0].size
        else Tiles(w[w[0].size..], last, limit))
  }

  lemma {:induction false} TilesStack(w: seq<Word>, below: seq<Word>, limit: Addr)
    requires Tiles(w, below == [], limit)
    requires below == [] || StackOk(below, limit)
    ensures StackOk(w + below, limit)
    decreases |w|
  {
    var size := w[0].size;
    assert (w + below)[size..] == w[size..] + below;
    if w[0].kind.UnderflowFrame? {
      assert w[size..] + below == below;
    } else if !w[0].kind.StopFrame? {
      TilesStack(w[size..], below, limit);
    }
  }

  /** The words of a stack whose chunks hold t. */
  function Flatten(t: seq<seq<Word>>): seq<Word> {
    if t == [] then [] else t[0] + Flatten(t[1..])
  }

  ghost predicate TilesAll(t: seq<seq<Word>>, limit: Addr) {
    forall i :: 0 <= i < |t| ==> Tiles(t[i], i == |t| - 1, limit)
  }

  lemma {:induction false} FlattenStack(t: seq<seq<Word>>, limit: Addr)
    requires t != [] && TilesAll(t, limit)
    ensures StackOk(Flatten(t), limit) && Flatten(t) != []
  {
    if |t| > 1 {
      FlattenStack(t[1..], limit);
    }
    assert Tiles(t[0], |t| == 1, limit);
    TilesStack(t[0], Flatten(t[1..]), limit);
  }

  /** What lies below the k-th chunk. */
  ghost function Below(t: seq<seq<Word>>, k: nat, limit: Addr): (below: seq<Word>)
    requires k < |t| && TilesAll(t, limit)
    ensures below == [] <==> k == |t| - 1
    ensures below != [] ==> StackOk(below, limit) && below == t[k + 1] + Below(t, k + 1, limit)
    decreases |t| - k
  {
    var below := Flatten(t[k + 1..]);
    if k + 1 < |t| then
      FlattenStack(t[k + 1..], limit);
      assert t[k + 1..][1..] == t[k + 2..];
      assert Below(t, k + 1, limit) == Flatten(t[k + 2..]);
      below
    else below
  }

  /** Fill a new AP_STACK with the words from sp up to frame. */
  method BuildApStack(cap: Nursery, stack: StgStack, sp: nat, frame: nat, noupd: bool) returns (ap: Addr)
    requires sp < frame <= stack.words.Length
    modifies cap
    ensures ap == old(cap.hp) && cap.hp == ap + 1
    ensures cap.heap == old(cap.heap)[ap := ApStack(noupd, stack.words[sp], stack.words[sp + 1..frame])]
  {
    ap := cap.hp;
    cap.hp := cap.hp + 1;
    var payload: seq<Word> := [];
    var words := frame - sp - 1;
    for i := 0 to words
      invariant payload == stack.words[sp + 1..sp + 1 + i]
      invariant cap.heap == old(cap.heap) && cap.hp == ap + 1
    {
      payload := payload + [stack.words[sp + 1 + i]];
    }
    cap.heap := cap.heap[ap := ApStack(noupd, stack.words[sp], payload)];
  }

  /** The chunk holds the words w, with room to spare. */
  ghost predicate Holding(c: StgStack, w: seq<Word>)
    reads c, c.words
  {
    2 <= c.sp <= c.words.Length && c.words[c.sp..] == w
  }

  /** The chunks are distinct and linked in order. */
  ghost predicate Distinct(chunks: seq<StgStack>) {
    && (forall i, j :: 0 <= i < j < |chunks| ==> chunks[i] != chunks[j] && chunks[i].words != chunks[j].words)
    && (forall i :: 0 <= i < |chunks| - 1 ==> chunks[i].next == chunks[i + 1])
  }

  /** The chunks after the k-th hold t. */
  ghost predicate Linked(chunks: seq<StgStack>, t: seq<seq<Word>>, k: nat)
    reads chunks, set c | c in chunks :: c.words
  {
    && |chunks| == |t| && Distinct(chunks)
    && (forall i :: k < i < |chunks| ==> Holding(chunks[i], t[i]))
  }

  /** The frames of the first chunk start after the closure to enter, if there is one on top. */
  ghost predicate Starts(stack: StgStack, frames: seq<Word>)
    reads stack, stack.words
  {
    && 2 <= stack.sp < stack.words.Length
    && (stack.words[stack.sp].EnterInfo? ==> stack.sp + 2 <= stack.words.Length)
    && frames == stack.words[if stack.words[stack.sp].EnterInfo? then stack.sp + 2 else stack.sp..]
  }

  /** The closure about to be entered. */
  function Top(stack: StgStack): Word
    reads stack, stack.words
    requires stack.sp < stack.words.Length && (stack.words[stack.sp].EnterInfo? ==> stack.sp + 1 < stack.words.Length)
  {
    if stack.words[stack.sp].EnterInfo? then stack.words[stack.sp + 1] else Clo(DUMMY_RET)
  }

  lemma {:induction false} StripRest(heap: Heap, hp: Addr, cur: Word, above: seq<Word>, rest: seq<Word>,
                                     catching: bool, limit: Addr, w: seq<Word>, below: seq<Word>)
    requires rest == w + below && Tiles(w, below == [], limit) && (below == [] || StackOk(below, limit))
    ensures StackOk(rest, limit)
    ensures rest[w[0].size..] == w[w[0].size..] + below && rest[..w[0].size] == w[..w[0].size]
  {
    TilesStack(w, below, limit);
  }

  /** threadStackUnderflow with no return values to copy: leave the empty chunk for the next. */
  method ThreadStackUnderflow(tso: Tso) returns (stack: StgStack)
    requires tso.stackobj.next != null && tso.stackobj.next != tso.stackobj
    modifies tso`stackobj, tso.stackobj`sp
    ensures stack == old(tso.stackobj.next) && tso.stackobj == stack
    ensures old(tso.stackobj).sp == old(tso.stackobj).words.Length
  {
    var oldStack := tso.stackobj;
    stack := oldStack.next;
    tso.stackobj := stack;
    oldStack.sp := oldStack.words.Length;
  }

  /** What stripping from here on amounts to. */
  ghost function FromHere(heap: Heap, hp: Addr, w: seq<Word>, sp: nat, frame: nat, below: seq<Word>, catching: bool,
                          limit: Addr): Stripped
    requires sp < frame < |w| && Tiles(w[frame..], below == [], limit) && (below == [] || StackOk(below, limit))
  {
    TilesStack(w[frame..], below, limit);
    Strip(heap, hp, w[sp], w[sp + 1..frame], w[frame..] + below, catching, limit)
  }

  /** With the walk at sp and frame in the words w, and below under them: what is left to do, if all is well. */
  ghost function Pending(heap: Heap, hp: Addr, w: seq<Word>, sp: nat, frame: nat, below: seq<Word>, catching: bool,
                         limit: Addr): (r: Option<Stripped>)
    ensures r.Some? ==> sp < frame < |w| && 2 <= frame && w[frame].Frame?
    ensures r.Some? && w[frame].kind.UnderflowFrame? ==> below != []
  {
    if sp < frame < |w| && 2 <= frame && Tiles(w[frame..], below == [], limit) && (below == [] || StackOk(below, limit))
    then Some(FromHere(heap, hp, w, sp, frame, below, catching, limit))
    else None
  }

  /** One pass of the loop over an ordinary frame. */
  lemma PassFrame(heap: Heap, hp: Addr, w: seq<Word>, sp: nat, frame: nat, below: seq<Word>, catching: bool,
                  limit: Addr)
    requires Pending(heap, hp, w, sp, frame, below, catching, limit).Some?
    requires w[frame].kind.OtherFrame? || (w[frame].kind.CatchFrame? && !catching)
    ensures 0 < w[frame].size
    ensures Pending(heap, hp, w, sp, frame + w[frame].size, below, catching, limit)
            == Pending(heap, hp, w, sp, frame, below, catching, limit)
  {
    var size := w[frame].size;
    StripRest(heap, hp, w[sp], w[sp + 1..frame], w[frame..] + below, catching, limit, w[frame..], below);
    assert w[frame..][size..] == w[frame + size..];
    assert Tiles(w[frame + size..], below == [], limit);
    assert w[sp + 1..frame] + w[frame..][..size] == w[sp + 1..frame + size];
  }

  /** One pass over an update frame, whose second word becomes the new current closure. */
  lemma PassUpdate(heap: Heap, hp: Addr, w: seq<Word>, sp: nat, frame: nat, below: seq<Word>, catching: bool,
                   limit: Addr)
    requires Pending(heap, hp, w, sp, frame, below, catching, limit).Some?
    requires w[frame].kind.UpdateFrame?
    ensures frame + 2 < |w| && w[frame + 1].Clo?
    ensures Pending(heap, hp, w, sp, frame, below, catching, limit)
            == Pending(heap[hp := ApStack(false, w[sp], w[sp + 1..frame])][w[frame + 1].addr := Ind(Clo(hp))], hp + 1,
                       w[frame + 1 := Clo(hp)], frame + 1, frame + 2, below, catching, limit)
  {
    StripRest(heap, hp, w[sp], w[sp + 1..frame], w[frame..] + below, catching, limit, w[frame..], below);
    assert w[frame..][2..] == w[frame + 2..];
    assert w[frame..][1] == w[frame + 1];
    assert Tiles(w[frame + 2..], below == [], limit);
    var w' := w[frame + 1 := Clo(hp)];
    assert w'[frame + 2..] == w[frame + 2..];
    assert w'[frame + 2..frame + 2] == [];
  }

  /** One pass over an underflow frame: the walk goes on at the top of the next chunk. */
  lemma PassUnderflow(heap: Heap, hp: Addr, w: seq<Word>, sp: nat, frame: nat, catching: bool, limit: Addr,
                      t: seq<seq<Word>>, k: nat, w': seq<Word>, sp': nat)
    requires k + 1 < |t| && TilesAll(t, limit)
    requires Pending(heap, hp, w, sp, frame, Below(t, k, limit), catching, limit).Some?
    requires w[frame].kind.UnderflowFrame?
    requires 0 < sp' && sp' + 1 <= |w'| && w'[sp'] == Clo(hp) && t[k + 1] == w'[sp' + 1..]
    ensures Pending(heap, hp, w, sp, frame, Below(t, k, limit), catching, limit)
            == Pending(heap[hp := ApStack(true, w[sp], w[sp + 1..frame])], hp + 1, w', sp', sp' + 1,
                       Below(t, k + 1, limit), catching, limit)
  {
    var below, below' := Below(t, k, limit), Below(t, k + 1, limit);
    assert Tiles(t[k + 1], k + 1 == |t| - 1, limit);
    StripRest(heap, hp, w[sp], w[sp + 1..frame], w[frame..] + below, catching, limit, w[frame..], below);
    assert w[frame..][2..] + below == below;
    assert w'[sp' + 1..sp' + 1] == [];
  }

  /** Where the walk starts. */
  lemma PassStart(heap: Heap, hp: Addr, w: seq<Word>, sp: nat, catching: bool, limit: Addr, t: seq<seq<Word>>)
    requires t != [] && TilesAll(t, limit) && StackOk(Flatten(t), limit)
    requires 0 < sp && sp + 1 <= |w| && w[sp + 1..] == t[0]
    ensures Pending(heap, hp, w, sp, sp + 1, Below(t, 0, limit), catching, limit)
            == Some(Strip(heap, hp, w[sp], [], Flatten(t), catching, limit))
  {
    assert Flatten(t) == t[0] + Below(t, 0, limit);
    assert Tiles(t[0], 0 == |t| - 1, limit);
    assert w[sp + 1..sp + 1] == [];
  }

  /** Where the walk ends: at the stop frame, or at a catch frame when there is an exception to catch. */
  lemma PassEnd(heap: Heap, hp: Addr, w: seq<Word>, sp: nat, frame: nat, below: seq<Word>, catching: bool, limit: Addr)
    requires Pending(heap, hp, w, sp, frame, below, catching, limit).Some?
    requires w[frame].kind.StopFrame? || (w[frame].kind.CatchFrame? && catching)
    ensures w[frame].kind.StopFrame? ==>
              below == [] && Pending(heap, hp, w, sp, frame, below, catching, limit)
                             == Some(Stripped(heap, hp, Killed(w[frame + 1..])))
    ensures w[frame].kind.CatchFrame? ==>
              && frame + 1 < |w| && w[frame + 1].Mask?
              && Pending(heap, hp, w, sp, frame, below, catching, limit)
                 == Some(Stripped(heap, hp, Caught(w[frame..] + below)))
  {
    assert w[frame..][1..] == w[frame + 1..];
    if w[frame].kind.StopFrame? {
      assert w[frame..] + below == w[frame..];
    } else {
      assert w[frame..][1] == w[frame + 1];
    }
  }

  /** UPDATE_FRAME: freeze the words above it, update the thunk, and leave the AP_STACK in the frame's last word. */
  method FreezeUpdate(cap: Nursery, stack: StgStack, sp: nat, frame: nat)
    requires sp < frame && frame + 1 < stack.words.Length && stack.words[frame + 1].Clo?
    modifies cap, stack.words
    ensures cap.hp == old(cap.hp) + 1
    ensures var w := old(stack.words[..]);
            && cap.heap == old(cap.heap)[old(cap.hp) := ApStack(false, w[sp], w[sp + 1..frame])]
                                        [w[frame + 1].addr := Ind(Clo(old(cap.hp)))]
            && stack.words[..] == w[frame + 1 := Clo(old(cap.hp))]
  {
    assert stack.words[sp + 1..frame] == stack.words[..][sp + 1..frame];
    var ap := BuildApStack(cap, stack, sp, frame, false);
    cap.heap := cap.heap[stack.words[frame + 1].addr := Ind(Clo(ap))];      // updateThunk
    stack.words[frame + UPDATE_FRAME_SIZE - 1] := Clo(ap);
  }

  /** UNDERFLOW_FRAME: freeze the words above it, go to the next chunk, and push the AP_STACK there. */
  method FreezeUnderflow(cap: Nursery, tso: Tso, sp: nat, frame: nat) returns (stack: StgStack)
    requires sp < frame <= tso.stackobj.words.Length
    requires tso.stackobj.next != null && tso.stackobj.next != tso.stackobj
    requires tso.stackobj.next.words != tso.stackobj.words
    requires 0 < tso.stackobj.next.sp <= tso.stackobj.next.words.Length
    modifies cap, tso`stackobj, tso.stackobj`sp, tso.stackobj.next.words
    ensures stack == old(tso.stackobj.next) && tso.stackobj == stack && stack.sp == old(tso.stackobj.next.sp)
    ensures cap.hp == old(cap.hp) + 1
    ensures var w := old(tso.stackobj.words[..]);
            cap.heap == old(cap.heap)[old(cap.hp) := ApStack(true, w[sp], w[sp + 1..frame])]
    ensures stack.words[..] == old(tso.stackobj.next.words[..])[stack.sp - 1 := Clo(old(cap.hp))]
  {
    assert tso.stackobj.words[sp + 1..frame] == tso.stackobj.words[..][sp + 1..frame];
    var ap := BuildApStack(cap, tso.stackobj, sp, frame, true);
    tso.stackobj.sp := frame;
    stack := ThreadStackUnderflow(tso);
    stack.words[stack.sp - 1] := Clo(ap);
  }

  /** CATCH_FRAME: leave the raise closure on top of it, ready to be entered, with exceptions blocked. */
  method RaiseAtCatch(cap: Nursery, tso: Tso, exception: Addr, frame: nat)
    requires 2 <= frame && frame + 1 < tso.stackobj.words.Length && tso.stackobj.words[frame + 1].Mask?
    modifies cap, tso`blockex, tso`interruptible, tso`what_next, tso.stackobj`sp, tso.stackobj.words
    ensures tso.what_next == ThreadRunGHC && tso.blockex
    ensures tso.interruptible == old(tso.stackobj.words[frame + 1]).interruptible
    ensures cap.hp == old(cap.hp) + 1 && cap.heap == old(cap.heap)[old(cap.hp) := Raise(exception)]
    ensures tso.stackobj.sp == frame - 2
    ensures tso.stackobj.words[frame - 2..] == [EnterInfo, Clo(old(cap.hp))] + old(tso.stackobj.words[frame..])
  {
    var stack := tso.stackobj;
    var raise := cap.hp;
    cap.hp := cap.hp + 1;
    cap.heap := cap.heap[raise := Raise(exception)];
    var sp := frame - 1;
    tso.blockex := true;
    tso.interruptible := stack.words[frame + 1].interruptible;
    stack.words[sp] := Clo(raise);
    stack.words[sp - 1] := EnterInfo;
    stack.sp := sp - 1;
    tso.what_next := ThreadRunGHC;
  }

  method StepOver(cap: Nursery, stack: StgStack, sp: nat, frame: nat, ghost r: Stripped, ghost below: seq<Word>,
                  catching: bool, ghost limit: Addr)
      returns (frame': nat)
    requires Pending(cap.heap, cap.hp, stack.words[..], sp, frame, below, catching, limit) == Some(r)
    requires stack.words[frame].kind.OtherFrame? || (stack.words[frame].kind.CatchFrame? && !catching)
    ensures frame < frame' && Pending(cap.heap, cap.hp, stack.words[..], sp, frame', below, catching, limit) == Some(r)
  {
    hide Pending, Tiles, Freeze.StackOk;
    ghost var w := stack.words[..];
    assert w[frame] == stack.words[frame];
    PassFrame(cap.heap, cap.hp, w, sp, frame, below, catching, limit);
    frame' := frame + stack.words[frame].size;
  }

  method StepUpdate(cap: Nursery, stack: StgStack, sp: nat, frame: nat, ghost r: Stripped, ghost below: seq<Word>,
                    catching: bool, ghost limit: Addr)
      returns (sp': nat, frame': nat)
    requires Pending(cap.heap, cap.hp, stack.words[..], sp, frame, below, catching, limit) == Some(r)
    requires stack.words[frame].kind.UpdateFrame?
    modifies cap, stack.words
    ensures frame < frame'
    ensures Pending(cap.heap, cap.hp, stack.words[..], sp', frame', below, catching, limit) == Some(r)
  {
    hide Pending, Tiles, Freeze.StackOk;
    PassUpdate(cap.heap, cap.hp, stack.words[..], sp, frame, below, catching, limit);
    FreezeUpdate(cap, stack, sp, frame);
    sp' := frame + UPDATE_FRAME_SIZE - 1;
    frame' := sp' + 1;
  }

  /** FreezeUnderflow moves the walk from the k-th chunk to the next; the later ones stay as they are. */
  method NextChunk(cap: Nursery, tso: Tso, sp: nat, frame: nat, ghost chunks: seq<StgStack>, ghost t: seq<seq<Word>>,
                   ghost k: nat)
      returns (stack: StgStack)
    requires k + 1 < |t| && Linked(chunks, t, k) && tso.stackobj == chunks[k]
    requires sp < frame <= tso.stackobj.words.Length
    modifies cap, tso`stackobj, tso.stackobj`sp, chunks[k + 1].words
    ensures Linked(chunks, t, k + 1) && stack == tso.stackobj == chunks[k + 1] && 2 <= stack.sp <= stack.words.Length
    ensures cap.hp == old(cap.hp) + 1
    ensures var w := old(tso.stackobj.words[..]);
            cap.heap == old(cap.heap)[old(cap.hp) := ApStack(true, w[sp], w[sp + 1..frame])]
    ensures stack.words[..][stack.sp - 1] == Clo(old(cap.hp)) && stack.words[..][stack.sp..] == t[k + 1]
  {
    assert Holding(chunks[k + 1], t[k + 1]);
    ghost var next := chunks[k + 1].words[..];
    assert chunks[k + 1].words[chunks[k + 1].sp..] == next[chunks[k + 1].sp..];
    stack := FreezeUnderflow(cap, tso, sp, frame);
    assert forall i :: k + 1 < i < |chunks| ==> Holding(chunks[i], t[i]);
  }

  method StepUnderflow(cap: Nursery, tso: Tso, sp: nat, frame: nat, ghost r: Stripped, catching: bool,
                       ghost limit: Addr,
                       ghost chunks: seq<StgStack>, ghost t: seq<seq<Word>>, ghost k: nat)
      returns (stack: StgStack, sp': nat, frame': nat)
    requires k < |t| == |chunks| && TilesAll(t, limit) && Linked(chunks, t, k) && tso.stackobj == chunks[k]
    requires Pending(cap.heap, cap.hp, tso.stackobj.words[..], sp, frame, Below(t, k, limit), catching, limit)
        == Some(r)
    requires tso.stackobj.words[frame].kind.UnderflowFrame?
    modifies cap, tso`stackobj, tso.stackobj`sp, if k + 1 < |chunks| then {chunks[k + 1].words} else {}
    ensures k + 1 < |t| && stack == tso.stackobj == chunks[k + 1] && Linked(chunks, t, k + 1)
    ensures Pending(cap.heap, cap.hp, stack.words[..], sp', frame', Below(t, k + 1, limit), catching, limit) == Some(r)
  {
    hide Pending, Tiles, TilesAll, Below, Freeze.StackOk, Freeze.Strip, Flatten, Linked, Holding, FromHere;
    ghost var heap, hp, w := cap.heap, cap.hp, tso.stackobj.words[..];
    assert Below(t, k, limit) != [];
    stack := NextChunk(cap, tso, sp, frame, chunks, t, k);
    sp' := stack.sp - 1;
    frame' := sp' + 1;
    ghost var heap', w' := heap[hp := ApStack(true, w[sp], w[sp + 1..frame])], stack.words[..];
    assert cap.heap == heap' && cap.hp == hp + 1;
    PassUnderflow(heap, hp, w, sp, frame, catching, limit, t, k, w', sp');
    assert Pending(heap', hp + 1, w', sp', frame', Below(t, k + 1, limit), catching, limit) == Some(r);
  }

  /** Make sure that a closure pointer is on top of the stack. */
  method CurrentClosure(stack: StgStack, ghost chunks: seq<StgStack>, ghost t: seq<seq<Word>>) returns (sp: nat)
    requires t != [] && |chunks| == |t| && Linked(chunks, t, 0) && stack == chunks[0] && Starts(stack, t[0])
    modifies stack.words
    ensures Linked(chunks, t, 0)
    ensures 0 < sp < stack.words.Length
    ensures stack.words[..][sp] == old(Top(stack)) && stack.words[..][sp + 1..] == t[0]
  {
    sp := stack.sp;
    if stack.words[sp].EnterInfo? {
      sp := sp + 1;
    } else {
      sp := sp - 1;
      stack.words[sp] := Clo(DUMMY_RET);
    }
    assert forall i :: 0 < i < |chunks| ==> Holding(chunks[i], t[i]);
  }

  method Start(cap: Nursery, stack: StgStack, catching: bool, ghost chunks: seq<StgStack>, ghost t: seq<seq<Word>>,
               ghost limit: Addr)
      returns (sp: nat, frame: nat)
    requires t != [] && |chunks| == |t| && Linked(chunks, t, 0) && stack == chunks[0] && Starts(stack, t[0])
    requires TilesAll(t, limit) && StackOk(Flatten(t), limit)
    modifies stack.words
    ensures Linked(chunks, t, 0)
    ensures Pending(cap.heap, cap.hp, stack.words[..], sp, frame, Below(t, 0, limit), catching, limit)
            == Some(Strip(cap.heap, cap.hp, old(Top(stack)), [], Flatten(t), catching, limit))
  {
    hide Pending, Tiles, Below, Freeze.StackOk, Freeze.Strip, Flatten, TilesAll, Linked, Holding, Distinct;
    sp := CurrentClosure(stack, chunks, t);
    frame := sp + 1;
    PassStart(cap.heap, cap.hp, stack.words[..], sp, catching, limit, t);
  }

  /** StepUpdate leaves the later chunks as they are. */
  method UpdateInChunk(cap: Nursery, stack: StgStack, sp: nat, frame: nat, ghost r: Stripped, catching: bool,
                       ghost limit: Addr,
                       ghost chunks: seq<StgStack>, ghost t: seq<seq<Word>>, ghost k: nat)
      returns (sp': nat, frame': nat)
    requires k < |t| == |chunks| && TilesAll(t, limit) && Linked(chunks, t, k) && stack == chunks[k]
    requires Pending(cap.heap, cap.hp, stack.words[..], sp, frame, Below(t, k, limit), catching, limit) == Some(r)
    requires stack.words[frame].kind.UpdateFrame?
    modifies cap, stack.words
    ensures frame < frame' && Linked(chunks, t, k)
    ensures Pending(cap.heap, cap.hp, stack.words[..], sp', frame', Below(t, k, limit), catching, limit) == Some(r)
  {
    hide Pending, Tiles, TilesAll, Below, Freeze.StackOk, Freeze.Strip, Flatten, FromHere;
    sp', frame' := StepUpdate(cap, stack, sp, frame, r, Below(t, k, limit), catching, limit);
    forall i | k < i < |chunks| ensures Holding(chunks[i], t[i]) { assert old(Holding(chunks[i], t[i])); }
  }

  /** One pass of the loop. */
  method Pass(cap: Nursery, tso: Tso, sp: nat, frame: nat, ghost r: Stripped, catching: bool, ghost limit: Addr,
              ghost chunks: seq<StgStack>, ghost t: seq<seq<Word>>, ghost k: nat)
      returns (stack: StgStack, sp': nat, frame': nat, ghost k': nat)
    requires k < |t| == |chunks| && TilesAll(t, limit) && Linked(chunks, t, k) && tso.stackobj == chunks[k]
    requires Pending(cap.heap, cap.hp, tso.stackobj.words[..], sp, frame, Below(t, k, limit), catching, limit)
        == Some(r)
    requires frame < tso.stackobj.words.Length && tso.stackobj.words[frame].Frame?
    requires !(tso.stackobj.words[frame].kind.StopFrame? || (tso.stackobj.words[frame].kind.CatchFrame? && catching))
    modifies cap, tso`stackobj, chunks, set c | c in chunks :: c.words
    ensures k' < |t| && Linked(chunks, t, k') && stack == tso.stackobj == chunks[k']
    ensures Pending(cap.heap, cap.hp, stack.words[..], sp', frame', Below(t, k', limit), catching, limit) == Some(r)
    ensures (k' == k && stack == old(tso.stackobj) && frame < frame') || k' == k + 1
  {
    hide Pending, Tiles, TilesAll, Below, Freeze.StackOk, Freeze.Strip, Flatten, FromHere, Linked, Holding;
    stack := tso.stackobj;
    assert stack in chunks;
    if stack.words[frame].kind.UpdateFrame? {
      sp', frame' := UpdateInChunk(cap, stack, sp, frame, r, catching, limit, chunks, t, k);
      return stack, sp', frame', k;
    }
    if stack.words[frame].kind.UnderflowFrame? {
      stack, sp', frame' := StepUnderflow(cap, tso, sp, frame, r, catching, limit, chunks, t, k);
      return stack, sp', frame', k + 1;
    }
    frame' := StepOver(cap, stack, sp, frame, r, Below(t, k, limit), catching, limit);
    return stack, sp, frame', k;
  }

  /** The loop, up to the frame that ends it. */
  method Walk(cap: Nursery, tso: Tso, sp0: nat, frame0: nat, ghost r: Stripped, catching: bool, ghost limit: Addr,
              ghost chunks: seq<StgStack>, ghost t: seq<seq<Word>>) returns (sp: nat, frame: nat, ghost k: nat)
    requires t != [] && TilesAll(t, limit) && Linked(chunks, t, 0) && tso.stackobj == chunks[0]
    requires Pending(cap.heap, cap.hp, tso.stackobj.words[..], sp0, frame0, Below(t, 0, limit), catching, limit)
        == Some(r)
    modifies cap, tso`stackobj, chunks, set c | c in chunks :: c.words
    ensures k < |t| == |chunks| && Linked(chunks, t, k) && tso.stackobj == chunks[k]
    ensures Pending(cap.heap, cap.hp, tso.stackobj.words[..], sp, frame, Below(t, k, limit), catching, limit) == Some(r)
    ensures tso.stackobj.words[frame].kind.StopFrame? || (tso.stackobj.words[frame].kind.CatchFrame? && catching)
  {
    assert |chunks| == |t|;
    hide Pending, Tiles, Below, Freeze.StackOk, Flatten, TilesAll, Linked, Holding, Freeze.Strip, FromHere;
    k, sp, frame := 0, sp0, frame0;
    var stack := tso.stackobj;
    while !(stack.words[frame].kind.StopFrame? || (stack.words[frame].kind.CatchFrame? && catching))
      invariant k < |t| == |chunks| && Linked(chunks, t, k) && stack == tso.stackobj == chunks[k]
      invariant Pending(cap.heap, cap.hp, stack.words[..], sp, frame, Below(t, k, limit), catching, limit) == Some(r)
      decreases |t| - k, stack.words.Length - frame
    {
      stack, sp, frame, k := Pass(cap, tso, sp, frame, r, catching, limit, chunks, t, k);
    }
  }

  /** The thread and the heap are as r says: killed, or about to enter the raise closure on top of the catch
      frame, with asynchronous exceptions blocked; below are the words of the later chunks. */
  ghost predicate Delivered(cap: Nursery, tso: Tso, exception: Option<Addr>, r: Stripped, below: seq<Word>)
    reads cap, tso, tso.stackobj, tso.stackobj.words
  {
    && tso.stackobj.sp <= tso.stackobj.words.Length
    && var stack := tso.stackobj.words[tso.stackobj.sp..];
       match r.outcome
       case Killed(rest) =>
         tso.what_next == ThreadKilled && cap.heap == r.heap && cap.hp == r.hp && stack == rest
       case Caught(frames) =>
         && exception.Some? && |frames| > 1 && frames[1].Mask?
         && tso.what_next == ThreadRunGHC && tso.blockex && tso.interruptible == frames[1].interruptible
         && cap.hp == r.hp + 1 && cap.heap == r.heap[r.hp := Raise(exception.value)]
         && stack + below == [EnterInfo, Clo(r.hp)] + frames
  }

  /** Leaving the loop: kill the thread, or leave the raise closure on the catch frame. */
  method Finish(cap: Nursery, tso: Tso, exception: Option<Addr>, sp: nat, frame: nat, ghost r: Stripped,
                ghost below: seq<Word>, ghost limit: Addr,
                ghost chunks: seq<StgStack>, ghost t: seq<seq<Word>>, ghost k: nat)
    requires Linked(chunks, t, k) && k < |chunks| && tso.stackobj == chunks[k]
    requires Pending(cap.heap, cap.hp, tso.stackobj.words[..], sp, frame, below, exception.Some?, limit) == Some(r)
    requires tso.stackobj.words[frame].kind.StopFrame?
        || (tso.stackobj.words[frame].kind.CatchFrame? && exception.Some?)
    modifies cap, tso`blockex, tso`interruptible, tso`what_next, tso.stackobj`sp, tso.stackobj.words
    ensures Delivered(cap, tso, exception, r, below)
    ensures Linked(chunks, t, k)
  {
    hide Pending, Tiles, Freeze.StackOk;
    ghost var w := tso.stackobj.words[..];
    PassEnd(cap.heap, cap.hp, w, sp, frame, below, exception.Some?, limit);
    assert w[frame..] == tso.stackobj.words[frame..] && w[frame + 1..] == tso.stackobj.words[frame + 1..];
    if tso.stackobj.words[frame].kind.StopFrame? {
      tso.what_next := ThreadKilled;
      tso.stackobj.sp := frame + STOP_FRAME_SIZE;
    } else {
      RaiseAtCatch(cap, tso, exception.value, frame);
      assert [EnterInfo, Clo(r.hp)] + w[frame..] + below == [EnterInfo, Clo(r.hp)] + (w[frame..] + below);
    }
  }

  /** The loop, and leaving it. */
  method Deliver(cap: Nursery, tso: Tso, exception: Option<Addr>, sp: nat, frame: nat, ghost r: Stripped,
                 ghost limit: Addr, ghost chunks: seq<StgStack>, ghost t: seq<seq<Word>>)
      returns (ghost k: nat)
    requires t != [] && TilesAll(t, limit) && Linked(chunks, t, 0)
    requires |chunks| == |t| && tso.stackobj == chunks[0]
    requires Pending(cap.heap, cap.hp, tso.stackobj.words[..], sp, frame, Below(t, 0, limit), exception.Some?, limit)
        == Some(r)
    modifies cap, tso, chunks, set c | c in chunks :: c.words
    ensures k < |t| && Linked(chunks, t, k) && tso.stackobj == chunks[k]
    ensures Delivered(cap, tso, exception, r, Below(t, k, limit))
  {
    hide Pending, Below, Freeze.StackOk, Freeze.Strip, Flatten, TilesAll, Delivered, Linked;
    var sp', frame';
    sp', frame', k := Walk(cap, tso, sp, frame, r, exception.Some?, limit, chunks, t);
    Finish(cap, tso, exception, sp', frame', r, Below(t, k, limit), limit, chunks, t, k);
  }

  /** What is delivered still resumes: the raise closure is allocated beyond all that stripping has built. */
  twostate lemma DeliveredResumes(x: (Nursery, Tso, Option<Addr>, Stripped, seq<Word>, Word, seq<Word>, Addr))
    requires StackOk(x.6, x.7)
    requires x.3 == Strip(old(x.0.heap), old(x.0.hp), x.5, [], x.6, x.2.Some?, x.7)
    requires Delivered(x.0, x.1, x.2, x.3, x.4)
    ensures x.7 <= old(x.0.hp) && HasUpdate(x.6, x.2.Some?, x.7) ==>
              Resumes(x.0.heap, old(x.0.hp), x.5, x.6, x.2.Some?, x.7)
  {
    hide Freeze.Strip, Freeze.Resumes, Freeze.StackOk, Freeze.HasUpdate;
    if x.7 <= old(x.0.hp) && HasUpdate(x.6, x.2.Some?, x.7) {
      ResumesLater(old(x.0.heap), old(x.0.hp), x.5, x.6, x.2.Some?, x.7, x.0.heap);
    }
  }

  /** The thread is delivered the exception, or killed.  If an update frame has been passed, entering the thunk of the
      deepest one, whenever and on whatever stack, gets to the closure that was about to be entered, or to
      the dummy if a frame was to be returned to, with the words above that update frame back on the stack. */
  method RaiseAsync(cap: Nursery, tso: Tso, exception: Option<Addr>,
                    ghost chunks: seq<StgStack>, ghost t: seq<seq<Word>>, ghost limit: Addr) returns (ghost k: nat)
    requires t != [] && TilesAll(t, limit) && Linked(chunks, t, 0)
    requires |chunks| == |t| && tso.stackobj == chunks[0] && Starts(tso.stackobj, t[0])
    modifies cap, tso, chunks, set c | c in chunks :: c.words
    ensures k < |t| && Linked(chunks, t, k) && tso.stackobj == chunks[k]
    ensures StackOk(Flatten(t), limit)
    ensures var r := Strip(old(cap.heap), old(cap.hp), old(Top(tso.stackobj)), [], Flatten(t), exception.Some?, limit);
            Delivered(cap, tso, exception, r, Below(t, k, limit))
    ensures limit <= old(cap.hp) && HasUpdate(Flatten(t), exception.Some?, limit) ==>
              var stack, sp := old(tso.stackobj), old(tso.stackobj.sp);
              var top := if old(stack.words[sp]).EnterInfo? then old(stack.words[sp + 1]) else Clo(DUMMY_RET);
              Resumes(cap.heap, old(cap.hp), top, Flatten(t), exception.Some?, limit)
  {
    hide Pending, Below, Freeze.StackOk, Freeze.Strip, Flatten, TilesAll, Delivered, Linked, Freeze.Resumes,
         Freeze.HasUpdate;
    FlattenStack(t, limit);
    ghost var r := Strip(cap.heap, cap.hp, Top(tso.stackobj), [], Flatten(t), exception.Some?, limit);
    var sp, frame := Start(cap, tso.stackobj, exception.Some?, chunks, t, limit);
    k := Deliver(cap, tso, exception, sp, frame, r, limit, chunks, t);
    DeliveredResumes((cap, tso, exception, r, Below(t, k, limit), old(Top(tso.stackobj)), Flatten(t), limit));
  }
}
