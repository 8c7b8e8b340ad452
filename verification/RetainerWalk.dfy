/**
 The order in which computeRetainerSet of kernel/rts/RetainerProfile.c comes to the closures, as a machine that makes
 one visit or takes one closure from the stack at a time; and two heaps on which a retainer is lost in this order,
 because a set is taken over from a parent.
 */
module RetainerWalk {
  import opened Base
  import opened Retainers

  /** A closure to be visited, its parent and its most recent retainer. */
  datatype Item = Item(c: Node, cp: Node, r: Retainer)

  /** What is to be done once the stack is empty: calls of retainClosure on further children of c, or the end of
      retainStack, which sets the boundary back to what it was. */
  datatype Call = Call(c: Node, r: Retainer, rest: seq<Node>) | Restore(below: seq<Elem>)

  /** stack: the entries above the boundary that have children left. */
  datatype Walk = Walk(rset: seq<RSet>, at: Option<Item>, stack: seq<Elem>, calls: seq<Call>, roots: seq<Node>)

  ghost predicate Proper(h: Heap, w: Walk) {
    && |w.rset| == |h|
    && (w.at.Some? ==> w.at.value.c < |h| && w.at.value.cp < |h|)
    && (w.roots != [] ==> w.roots[0] < |h|)
  }

  predicate Finished(w: Walk) {
    w.at == None && w.stack == [] && w.calls == [] && w.roots == []
  }

  /** One pass of retainClosure from inner_loop, except for the children. */
  ghost function Visit(h: Heap, height: seq<nat>, max: nat, w: Walk, x: Item): Walk
    requires WellFormed(h, height) && |w.rset| == |h| && x.c < |h| && x.cp < |h|
  {
    var t := Target(h, height, x.c);
    var first := w.rset[t].Unset?;
    var s := if h[x.cp].isRetainer then Unset else w.rset[x.cp];
    if h[t].kind.Ignored? || (!first && Member(x.r, w.rset[t])) then w.(at := None) else
      var w1 := w.(rset := w.rset[t := Updated(s, w.rset[t], x.r, max)], at := None);
      if !first && h[t].isRetainer then w1
      else Children(w1, h[t], t, if h[t].isRetainer then h[t].retainer else x.r)
  }

  function Calls(t: Node, r: Retainer, rest: seq<Node>): seq<Call> {
    if rest == [] then [] else [Call(t, r, rest)]
  }

  /** The first child is next, except that retainStack saves the stack before. */
  function Children(w: Walk, k: Info, t: Node, r: Retainer): Walk {
    if k.kind.InOneGo? && k.kind.direct == 0 then
      w.(stack := [], calls := Calls(t, r, k.children) + [Restore(w.stack)] + w.calls)
    else if k.children == [] then w
    else
      var rest := k.children[1..];
      var w1 := w.(at := Some(Item(k.children[0], t, r)));
      if k.kind.InOneGo? then w1.(calls := Calls(t, r, rest) + w.calls)
      else if rest == [] then w1
      else w1.(stack := w.stack + [Elem(t, r, rest)])
  }

  /** pop; with an empty stack the innermost call returns. */
  function Pop(h: Heap, w: Walk): Walk
    requires w.roots != [] ==> w.roots[0] < |h|
  {
    if w.stack != [] then
      var (top, below) := (w.stack[|w.stack| - 1], w.stack[..|w.stack| - 1]);
      if top.rest == [] then w.(stack := below)
      else w.(at := Some(Item(top.rest[0], top.c, top.r)),
              stack := if |top.rest| == 1 then below else below + [top.(rest := top.rest[1..])])
    else if w.calls != [] then
      match w.calls[0]
      case Restore(below) => w.(stack := below, calls := w.calls[1..])
      case Call(c, r, rest) =>
        if rest == [] then w.(calls := w.calls[1..])
        else w.(at := Some(Item(rest[0], c, r)), calls := Calls(c, r, rest[1..]) + w.calls[1..])
    else if w.roots != [] then
      w.(at := Some(Item(w.roots[0], w.roots[0], RootRetainer(h, w.roots[0]))), roots := w.roots[1..])
    else w
  }

  ghost function Next(h: Heap, height: seq<nat>, max: nat, w: Walk): Walk
    requires WellFormed(h, height) && Proper(h, w)
  {
    if w.at.Some? then Visit(h, height, max, w, w.at.value) else Pop(h, w)
  }

  /** A walk from the roots to its end. */
  ghost predicate Whole(h: Heap, height: seq<nat>, max: nat, roots: seq<Node>, t: seq<Walk>)
    requires WellFormed(h, height)
  {
    && t != [] && t[0] == Walk(seq(|h|, _ => Unset), None, [], [], roots) && Finished(t[|t| - 1])
    && forall i :: 0 <= i < |t| - 1 ==> Goes(h, height, max, t[i], t[i + 1])
  }

  ghost predicate Goes(h: Heap, height: seq<nat>, max: nat, w: Walk, w': Walk)
    requires WellFormed(h, height)
  {
    Proper(h, w) && w' == Next(h, height, max, w)
  }

  /** At the end of the walk the set of c does not have r, although r is a retainer of c. */
  ghost predicate Loses(h: Heap, height: seq<nat>, max: nat, roots: seq<Node>, t: seq<Walk>, r: Retainer, c: Node)
    requires WellFormed(h, height)
  {
    && Whole(h, height, max, roots, t) && c < |t[|t| - 1].rset| == |h| && !Member(r, t[|t| - 1].rset[c])
    && exists from: set<Node> :: (forall x :: x in from <==> x in roots) && Retains(h, height, from, r, c)
  }

  // ----- two walks -----

  // The sets that occur.
  const u := Unset
  const s := Elems({SYSTEM})
  const a := Elems({1})
  const b := Elems({1, 2})
  const d := Elems({4})

  lemma OneStep(h: Heap, height: seq<nat>, max: nat, w: Walk, w': Walk)
    requires WellFormed(h, height) && Proper(h, w)
    requires var v := Next(h, height, max, w);
             v.rset == w'.rset && v.at == w'.at && v.stack == w'.stack && v.calls == w'.calls && v.roots == w'.roots
    ensures Goes(h, height, max, w, w')
  {
  }

  lemma NoneSkipped(h: Heap, height: seq<nat>)
    requires |height| == |h| && forall n :: 0 <= n < |h| ==> !h[n].kind.Skipped?
    requires forall n, i :: 0 <= n < |h| && 0 <= i < |h[n].children| ==> h[n].children[i] < |h|
    ensures WellFormed(h, height) && forall n: Node :: n < |h| ==> Target(h, height, n) == n
  {
  }

  lemma Takeovers()
    ensures |{1}| == |{4}| == 1 && |{1, 2}| == 2 && {1} + {2} == {1, 2}
    ensures Updated(u, a, 2, 3) == b && Updated(b, a, 2, 3) == b && Updated(b, d, 2, 3) == b
    ensures forall r: Retainer :: Updated(u, u, r, 3) == Elems({r})
    ensures forall x: RSet, r: Retainer :: !x.Unset? ==> Updated(x, u, r, 3) == x
  {
    assert {1} + {2} == {1, 2};
  }

  /** Closure 4 is a PAP. The call for its first child empties the stack, on which the closure waits that points to it
      with retainer 2, so that it is visited again before its second child has been. That child has retainer 4 already,
      and takes over the set of the PAP. */
  const PapHeap: Heap := [
    Info(Pushed(true), true, 4, [5]),
    Info(Pushed(true), false, 0, [2, 3]),
    Info(Pushed(true), true, 1, [4]),
    Info(Pushed(true), true, 2, [4]),
    Info(InOneGo(2), false, 0, [6, 5]),
    Info(Pushed(true), false, 0, []),
    Info(Pushed(true), false, 0, [])]

  const PapWalk: seq<Walk> := [
    Walk([u, u, u, u, u, u, u], None, [], [], [0, 1]),
    Walk([u, u, u, u, u, u, u], Some(Item(0, 0, 4)), [], [], [1]),
    Walk([d, u, u, u, u, u, u], Some(Item(5, 0, 4)), [], [], [1]),
    Walk([d, u, u, u, u, d, u], None, [], [], [1]),
    Walk([d, u, u, u, u, d, u], Some(Item(1, 1, 0)), [], [], []),
    Walk([d, s, u, u, u, d, u], Some(Item(2, 1, 0)), [Elem(1, 0, [3])], [], []),
    Walk([d, s, s, u, u, d, u], Some(Item(4, 2, 1)), [Elem(1, 0, [3])], [], []),
    Walk([d, s, s, u, a, d, u], Some(Item(6, 4, 1)), [Elem(1, 0, [3])], [Call(4, 1, [5])], []),
    Walk([d, s, s, u, a, d, a], None, [Elem(1, 0, [3])], [Call(4, 1, [5])], []),
    Walk([d, s, s, u, a, d, a], Some(Item(3, 1, 0)), [], [Call(4, 1, [5])], []),
    Walk([d, s, s, s, a, d, a], Some(Item(4, 3, 2)), [], [Call(4, 1, [5])], []),
    Walk([d, s, s, s, b, d, a], Some(Item(6, 4, 2)), [], [Call(4, 2, [5]), Call(4, 1, [5])], []),
    Walk([d, s, s, s, b, d, b], None, [], [Call(4, 2, [5]), Call(4, 1, [5])], []),
    Walk([d, s, s, s, b, d, b], Some(Item(5, 4, 2)), [], [Call(4, 1, [5])], []),
    Walk([d, s, s, s, b, b, b], None, [], [Call(4, 1, [5])], []),
    Walk([d, s, s, s, b, b, b], Some(Item(5, 4, 1)), [], [], []),
    Walk([d, s, s, s, b, b, b], None, [], [], [])]

  lemma PapGoes1(height: seq<nat>)
    requires height == seq(7, _ => 0)
    ensures WellFormed(PapHeap, height)
    ensures forall i :: 0 <= i < 4 ==> Goes(PapHeap, height, 3, PapWalk[i], PapWalk[i + 1])
  {
    var h, t := PapHeap, PapWalk;
    Takeovers();
    NoneSkipped(h, height);
    hide Updated, Target, WellFormed;
    OneStep(h, height, 3, t[0], t[1]);
    OneStep(h, height, 3, t[1], t[2]);
    OneStep(h, height, 3, t[2], t[3]);
    OneStep(h, height, 3, t[3], t[4]);
  }

  lemma PapGoes2(height: seq<nat>)
    requires height == seq(7, _ => 0)
    ensures WellFormed(PapHeap, height)
    ensures forall i :: 4 <= i < 8 ==> Goes(PapHeap, height, 3, PapWalk[i], PapWalk[i + 1])
  {
    var h, t := PapHeap, PapWalk;
    Takeovers();
    NoneSkipped(h, height);
    hide Updated, Target, WellFormed;
    OneStep(h, height, 3, t[4], t[5]);
    OneStep(h, height, 3, t[5], t[6]);
    OneStep(h, height, 3, t[6], t[7]);
    OneStep(h, height, 3, t[7], t[8]);
  }

  lemma PapGoes3(height: seq<nat>)
    requires height == seq(7, _ => 0)
    ensures WellFormed(PapHeap, height)
    ensures forall i :: 8 <= i < 12 ==> Goes(PapHeap, height, 3, PapWalk[i], PapWalk[i + 1])
  {
    var h, t := PapHeap, PapWalk;
    Takeovers();
    NoneSkipped(h, height);
    hide Updated, Target, WellFormed;
    OneStep(h, height, 3, t[8], t[9]);
    OneStep(h, height, 3, t[9], t[10]);
    OneStep(h, height, 3, t[10], t[11]);
    OneStep(h, height, 3, t[11], t[12]);
  }

  lemma PapGoes4(height: seq<nat>)
    requires height == seq(7, _ => 0)
    ensures WellFormed(PapHeap, height)
    ensures forall i :: 12 <= i < 16 ==> Goes(PapHeap, height, 3, PapWalk[i], PapWalk[i + 1])
  {
    var h, t := PapHeap, PapWalk;
    Takeovers();
    NoneSkipped(h, height);
    hide Updated, Target, WellFormed;
    OneStep(h, height, 3, t[12], t[13]);
    OneStep(h, height, 3, t[13], t[14]);
    OneStep(h, height, 3, t[14], t[15]);
    OneStep(h, height, 3, t[15], t[16]);
  }

  /** A cycle goes through closure 3, a retainer. Closure 2 is visited again, with its retainer 2, before the second
      child has been visited with retainer 1. That has retainer 4 already, and takes over the set of closure 2. */
  const CycleHeap: Heap := [
    Info(Pushed(true), true, 4, [4]),
    Info(Pushed(true), true, 1, [2]),
    Info(Pushed(true), false, 0, [3, 4]),
    Info(Pushed(true), true, 2, [2]),
    Info(Pushed(true), false, 0, [])]

  const CycleWalk: seq<Walk> := [
    Walk([u, u, u, u, u], None, [], [], [0, 1]),
    Walk([u, u, u, u, u], Some(Item(0, 0, 4)), [], [], [1]),
    Walk([d, u, u, u, u], Some(Item(4, 0, 4)), [], [], [1]),
    Walk([d, u, u, u, d], None, [], [], [1]),
    Walk([d, u, u, u, d], Some(Item(1, 1, 1)), [], [], []),
    Walk([d, a, u, u, d], Some(Item(2, 1, 1)), [], [], []),
    Walk([d, a, a, u, d], Some(Item(3, 2, 1)), [Elem(2, 1, [4])], [], []),
    Walk([d, a, a, a, d], Some(Item(2, 3, 2)), [Elem(2, 1, [4])], [], []),
    Walk([d, a, b, a, d], Some(Item(3, 2, 2)), [Elem(2, 1, [4]), Elem(2, 2, [4])], [], []),
    Walk([d, a, b, b, d], None, [Elem(2, 1, [4]), Elem(2, 2, [4])], [], []),
    Walk([d, a, b, b, d], Some(Item(4, 2, 2)), [Elem(2, 1, [4])], [], []),
    Walk([d, a, b, b, b], None, [Elem(2, 1, [4])], [], []),
    Walk([d, a, b, b, b], Some(Item(4, 2, 1)), [], [], []),
    Walk([d, a, b, b, b], None, [], [], [])]

  lemma CycleGoes1(height: seq<nat>)
    requires height == seq(5, _ => 0)
    ensures WellFormed(CycleHeap, height)
    ensures forall i :: 0 <= i < 4 ==> Goes(CycleHeap, height, 3, CycleWalk[i], CycleWalk[i + 1])
  {
    var h, t := CycleHeap, CycleWalk;
    Takeovers();
    NoneSkipped(h, height);
    hide Updated, Target, WellFormed;
    OneStep(h, height, 3, t[0], t[1]);
    OneStep(h, height, 3, t[1], t[2]);
    OneStep(h, height, 3, t[2], t[3]);
    OneStep(h, height, 3, t[3], t[4]);
  }

  lemma CycleGoes2(height: seq<nat>)
    requires height == seq(5, _ => 0)
    ensures WellFormed(CycleHeap, height)
    ensures forall i :: 4 <= i < 8 ==> Goes(CycleHeap, height, 3, CycleWalk[i], CycleWalk[i + 1])
  {
    var h, t := CycleHeap, CycleWalk;
    Takeovers();
    NoneSkipped(h, height);
    hide Updated, Target, WellFormed;
    OneStep(h, height, 3, t[4], t[5]);
    OneStep(h, height, 3, t[5], t[6]);
    OneStep(h, height, 3, t[6], t[7]);
    OneStep(h, height, 3, t[7], t[8]);
  }

  lemma CycleGoes3(height: seq<nat>)
    requires height == seq(5, _ => 0)
    ensures WellFormed(CycleHeap, height)
    ensures forall i :: 8 <= i < 12 ==> Goes(CycleHeap, height, 3, CycleWalk[i], CycleWalk[i + 1])
  {
    var h, t := CycleHeap, CycleWalk;
    Takeovers();
    NoneSkipped(h, height);
    hide Updated, Target, WellFormed;
    OneStep(h, height, 3, t[8], t[9]);
    OneStep(h, height, 3, t[9], t[10]);
    OneStep(h, height, 3, t[10], t[11]);
    OneStep(h, height, 3, t[11], t[12]);
  }

  lemma CycleGoes4(height: seq<nat>)
    requires height == seq(5, _ => 0)
    ensures WellFormed(CycleHeap, height)
    ensures forall i :: 12 <= i < 13 ==> Goes(CycleHeap, height, 3, CycleWalk[i], CycleWalk[i + 1])
  {
    var h, t := CycleHeap, CycleWalk;
    Takeovers();
    NoneSkipped(h, height);
    hide Updated, Target, WellFormed;
    OneStep(h, height, 3, t[12], t[13]);
  }

  /** On a heap without cycles whose PAP has two children, a retainer is lost. */
  lemma PapLoses() returns (height: seq<nat>, ord: seq<nat>)
    ensures WellFormed(PapHeap, height) && Loses(PapHeap, height, 3, [0, 1], PapWalk, 4, 5)
    ensures |ord| == |PapHeap|
    ensures forall n: Node, m: Node :: n < |ord| && m < |ord| && Edge(PapHeap, height, n, m) ==> ord[m] < ord[n]
  {
    height, ord := seq(7, _ => 0), [6, 5, 4, 3, 2, 1, 1];
    PapGoes1(height);
    PapGoes2(height);
    PapGoes3(height);
    PapGoes4(height);
    assert PapWalk[0].rset == seq(7, _ => Unset);
    assert PapHeap[0].children[0] == 5;
    RetainsChild(PapHeap, height, {0, 1}, 0, 5);
    assert forall x :: x in {0, 1} <==> x in [0, 1];
  }

  /** On a heap whose closures are all pushed, but with a cycle, too. */
  lemma CycleLoses() returns (height: seq<nat>)
    ensures WellFormed(CycleHeap, height) && Loses(CycleHeap, height, 3, [0, 1], CycleWalk, 4, 4)
    ensures forall n :: 0 <= n < |CycleHeap| ==> CycleHeap[n].kind.Pushed?
  {
    height := seq(5, _ => 0);
    CycleGoes1(height);
    CycleGoes2(height);
    CycleGoes3(height);
    CycleGoes4(height);
    assert CycleWalk[0].rset == seq(5, _ => Unset);
    assert CycleHeap[0].children[0] == 4;
    RetainsChild(CycleHeap, height, {0, 1}, 0, 4);
    assert forall x :: x in {0, 1} <==> x in [0, 1];
  }
}
