/**
 What the traversal of kernel/rts/RetainerProfile.c works on: a pointer to a retainer set in each closure, the pool of
 sets, and the traverse stack with positions in closures, boundary included.  Each operation is the one on values.
 */
module RetainerRecords {
  import opened Base
  import opened Retainers
  import opened TraverseStack
  import Ch = Children
  import S = RetainerSets
  import V = RetainerView

  /** stackElement: a closure, what its children are retained by, and which of them is next. */
  datatype Entry = Entry(c: Node, r: Retainer, pos: Ch.StackPos)

  class Records {
    const h: Heap
    const layouts: seq<Ch.Layout>
    const pool: S.Pool
    const ts: Stack<Entry>
    var sets: seq<S.RetainerSet?>        // the one each closure points to
    var boundary: Pointer<Entry>         // currentStackBoundary
    ghost var k: nat                     // the number of the group it points into
    ghost var Repr: set<object>          // the other objects here
    ghost var stackRepr: set<object>     // and those of the traverse stack

    /** The layout of a closure gives its children, and says whether their number is fixed. */
    ghost predicate LayoutOk(n: Node)
      requires n < |h|
    {
      n < |layouts| && (h[n].kind.Pushed? ==>
        && Ch.Ok(layouts[n]) && Ch.Children(layouts[n]) == h[n].children && (h[n].kind.eager <==> Ch.Eager(layouts[n])))
    }

    /** The entry stands for the one with the children still to come. */
    ghost predicate Is(e: Entry, x: Elem)
      requires forall n: Node :: n < |h| ==> LayoutOk(n)
    {
      && e.c == x.c < |h| && e.r == x.r && h[e.c].kind.Pushed?
      && LayoutOk(e.c) && Ch.PosOk(layouts[e.c], e.pos) && Ch.Remaining(layouts[e.c], e.pos) == x.rest
    }

    ghost predicate Sets(rset: seq<RSet>)
      reads this`sets, pool, pool.hashTable
    {
      && pool.Valid() && |sets| == |rset| == |h|
      && forall n: Node :: n < |h| ==> V.Known(pool, sets[n]) && V.View(pool, sets[n]) == rset[n]
    }

    /** The top first in q, and last in es. */
    ghost predicate Entries(q: seq<Entry>, es: seq<Elem>)
      requires forall n: Node :: n < |h| ==> LayoutOk(n)
    {
      |q| == |es| && forall i :: 0 <= i < |q| ==> Is(q[i], es[|q| - 1 - i])
    }

    /** The traverse stack has these entries, and the boundary is at this depth. */
    ghost predicate Stacked(es: seq<Elem>, depth: nat)
      reads this`boundary, this`k, this`stackRepr, ts, stackRepr
    {
      && ts in stackRepr && (forall g :: g in ts.groups ==> g in stackRepr && g.elems in stackRepr)
      && ts.Valid() && ts.Marks(boundary, depth, k)
      && (forall n: Node :: n < |h| ==> LayoutOk(n)) && Entries(ts.Contents(), es)
    }

    /** These records stand for the sets, the stack and the boundary, a depth of the stack. */
    ghost predicate Agrees(rset: seq<RSet>, es: seq<Elem>, depth: nat)
      reads this, ts, Repr
    {
      && Repr == {pool, pool.hashTable} + stackRepr && {pool, pool.hashTable} !! stackRepr && this !in Repr
      && Sets(rset) && Stacked(es, depth)
    }

    constructor (h: Heap, layouts: seq<Ch.Layout>, maxRetainerSetSize: nat, size: nat)
      requires maxRetainerSetSize > 0 && size > 1 && |layouts| == |h|
      requires forall n: Node :: n < |h| && h[n].kind.Pushed? ==>
        && Ch.Ok(layouts[n]) && Ch.Children(layouts[n]) == h[n].children && (h[n].kind.eager <==> Ch.Eager(layouts[n]))
      ensures this.h == h && pool.maxRetainerSetSize == maxRetainerSetSize
      ensures Agrees(seq(|h|, _ => Unset), [], 0)
    {
      this.h, this.layouts := h, layouts;
      pool := new S.Pool(maxRetainerSetSize);
      var stack := new Stack<Entry>(size);
      ts := stack;
      sets := seq(|h|, _ => null);
      var b, n := stack.Mark();
      boundary, k := b, n;
      new;
      stackRepr := {ts, ts.currentStack, ts.currentStack.elems};
      Repr := {pool, pool.hashTable} + stackRepr;
      hide S.Pool.Valid, Stack.Valid, Stack.Marks, Stack.Contents, Agrees, Ch.Ok, Ch.Children, Ch.Eager;
      Fresh();
    }

    lemma Fresh()
      requires pool.Valid() && |sets| == |h| && forall n :: 0 <= n < |h| ==> sets[n] == null
      requires (forall n: Node :: n < |h| ==> LayoutOk(n)) && ts.Valid() && ts.Contents() == []
      requires ts.Marks(boundary, 0, k)
      requires stackRepr == {ts, ts.currentStack, ts.currentStack.elems} && Repr == {pool, pool.hashTable} + stackRepr
      requires {pool, pool.hashTable} !! stackRepr && this !in Repr && ts.groups == [ts.currentStack]
      ensures Agrees(seq(|h|, _ => Unset), [], 0)
    {
      hide S.Pool.Valid, Stack.Valid, Stack.Marks, Stack.Contents, LayoutOk, Sets, Entries;
      FreshSets();
      FreshStack();
    }

    lemma FreshSets()
      requires pool.Valid() && |sets| == |h| && forall n :: 0 <= n < |h| ==> sets[n] == null
      ensures Sets(seq(|h|, _ => Unset))
    {
    }

    lemma FreshStack()
      requires (forall n: Node :: n < |h| ==> LayoutOk(n)) && ts.Valid() && ts.Contents() == []
      ensures Entries(ts.Contents(), [])
    {
    }

    /** The part of retainClosure that gives a closure its new set. */
    method Associate(c: Node, cp: Node, r: Retainer, ghost rset: seq<RSet>, ghost es: seq<Elem>, ghost depth: nat)
      returns (expand: bool, c_child_r: Retainer)
      requires Agrees(rset, es, depth) && c < |h| && cp < |h|
      modifies this`sets, Repr
      ensures Repr == old(Repr) && ts.groups == old(ts.groups)
      ensures var s := if h[cp].isRetainer then Unset else rset[cp];
        Agrees(rset[c := Updated(s, rset[c], r, pool.maxRetainerSetSize)], es, depth)
      ensures expand <==> rset[c].Unset? || (!Member(r, rset[c]) && !h[c].isRetainer)
      ensures c_child_r == if h[c].isRetainer then h[c].retainer else r
    {
      assert ts in stackRepr;
      hide Stacked;
      expand, c_child_r := NewSet(c, cp, r, rset);
    }

    method NewSet(c: Node, cp: Node, r: Retainer, ghost rset: seq<RSet>) returns (expand: bool, c_child_r: Retainer)
      requires Sets(rset) && c < |h| && cp < |h|
      modifies this`sets, pool, pool.hashTable
      ensures var s := if h[cp].isRetainer then Unset else rset[cp];
        Sets(rset[c := Updated(s, rset[c], r, pool.maxRetainerSetSize)])
      ensures expand <==> rset[c].Unset? || (!Member(r, rset[c]) && !h[c].isRetainer)
      ensures c_child_r == if h[c].isRetainer then h[c].retainer else r
    {
      hide S.Pool.Valid, Updated;
      var s := if h[cp].isRetainer then null else sets[cp];
      var rs := sets[c];
      var u, member := V.Associate(pool, s, rs, r);
      expand := rs == null || (!member && !h[c].isRetainer);
      c_child_r := if h[c].isRetainer then h[c].retainer else r;
      sets := sets[c := u];
    }

    /** isOnBoundary. */
    method IsOnBoundary(ghost rset: seq<RSet>, ghost es: seq<Elem>, ghost depth: nat) returns (on: bool)
      requires Agrees(rset, es, depth)
      ensures on <==> |es| == depth
    {
      on := ts.IsOnBoundary(boundary, depth, k);
    }

    /** What is left when the next child of the top entry has been taken. */
    ghost function Left(es: seq<Elem>): seq<Elem>
      requires es != [] && es[|es| - 1].c < |h|
    {
      var n := |es| - 1;
      var e := es[n];
      if e.rest == [] || (h[e.c].kind == Pushed(true) && |e.rest| == 1) then es[..n]
      else es[n := e.(rest := e.rest[1..])]
    }

    lemma EntriesTail(q: seq<Entry>, es: seq<Elem>)
      requires (forall n: Node :: n < |h| ==> LayoutOk(n)) && Entries(q, es) && q != []
      ensures es != [] && Is(q[0], es[|es| - 1]) && Entries(q[1..], es[..|es| - 1])
    {
    }

    lemma EntriesCons(e: Entry, x: Elem, q: seq<Entry>, es: seq<Elem>)
      requires (forall n: Node :: n < |h| ==> LayoutOk(n)) && Entries(q, es) && Is(e, x)
      ensures Entries([e] + q, es + [x])
    {
    }

    method DropTop(ghost es: seq<Elem>, ghost depth: nat)
      requires Stacked(es, depth) && es != []
      modifies stackRepr
      ensures Stacked(es[..|es| - 1], depth) && ts.groups == old(ts.groups)
    {
      EntriesTail(ts.Contents(), es);
      hide Entries, LayoutOk, Stack.Valid, Stack.Contents;
      ts.PopOff();
    }

    method ChangeTop(e: Entry, ghost x: Elem, ghost es: seq<Elem>, ghost depth: nat)
      requires Stacked(es, depth) && es != [] && Is(e, x)
      modifies stackRepr
      ensures Stacked(es[|es| - 1 := x], depth) && ts.groups == old(ts.groups)
    {
      ghost var q := ts.Contents();
      EntriesTail(q, es);
      EntriesCons(e, x, q[1..], es[..|es| - 1]);
      assert es[..|es| - 1] + [x] == es[|es| - 1 := x];
      assert ts.currentStack.elems in stackRepr;
      hide Entries, LayoutOk, Stack.Valid, Stack.Contents;
      ts.SetTop(e);
    }

    method AddTop(e: Entry, ghost x: Elem, ghost es: seq<Elem>, ghost depth: nat)
      requires Stacked(es, depth) && Is(e, x)
      modifies this`stackRepr, stackRepr
      ensures Stacked(es + [x], depth) && fresh(stackRepr - old(stackRepr)) && old(ts.groups) <= ts.groups
    {
      hide Entries, Is, LayoutOk, Stack.Valid, Stack.Contents;
      EntriesCons(e, x, ts.Contents(), es);
      ts.Push(e);
      stackRepr := stackRepr + {ts.currentStack, ts.currentStack.elems};
      ts.MarkKept((boundary, depth, k));
    }

    /** The top entry, and what it stands for. */
    method Top(ghost es: seq<Elem>, ghost depth: nat) returns (se: Entry)
      requires Stacked(es, depth) && es != []
      ensures (forall n: Node :: n < |h| ==> LayoutOk(n)) && Is(se, es[|es| - 1])
    {
      EntriesTail(ts.Contents(), es);
      se := ts.Top();
    }

    /** One round of pop. */
    method NextChild(ghost rset: seq<RSet>, ghost es: seq<Elem>, ghost depth: nat)
      returns (c: Option<Node>, cp: Node, r: Retainer)
      requires Agrees(rset, es, depth) && es != []
      modifies this`Repr, Repr
      ensures es[|es| - 1].c < |h| && Agrees(rset, Left(es), depth) && Repr == old(Repr) && ts.groups == old(ts.groups)
      ensures var e := es[|es| - 1];
        cp == e.c && r == e.r && c == if e.rest == [] then None else Some(e.rest[0])
    {
      hide Stacked, Sets;
      var se := Top(es, depth);
      ghost var x := es[|es| - 1];
      cp, r := se.c, se.r;
      var q;
      c, q := Ch.Pop(layouts[se.c], se.pos);
      if q.None? {
        DropTop(es, depth);
      } else {
        ChangeTop(se.(pos := q.value), x.(rest := x.rest[1..]), es, depth);
      }
    }

    /** push: the first child, and an entry if there may be others. */
    method Push(c: Node, r: Retainer, ghost rset: seq<RSet>, ghost es: seq<Elem>, ghost depth: nat)
      returns (first_child: Option<Node>)
      requires Agrees(rset, es, depth) && c < |h| && h[c].kind.Pushed?
      modifies this`Repr, this`stackRepr, Repr
      ensures var ch := h[c].children;
        && first_child == (if ch == [] then None else Some(ch[0]))
        && Agrees(rset, if ch == [] || (h[c].kind.eager && |ch| == 1) then es else es + [Elem(c, r, ch[1..])], depth)
      ensures fresh(Repr - old(Repr)) && old(ts.groups) <= ts.groups
    {
      Layouts(rset, es, depth);
      assert LayoutOk(c);
      hide Agrees, Ch.Children, Ch.Remaining, Ch.PosOk, Ch.Ok, Ch.Eager;
      var se;
      first_child, se := Ch.Push(layouts[c]);
      if se.Some? {
        AddEntry(Entry(c, r, se.value), Elem(c, r, h[c].children[1..]), rset, es, depth);
      }
    }

    lemma Layouts(rset: seq<RSet>, es: seq<Elem>, depth: nat)
      requires Agrees(rset, es, depth)
      ensures forall n: Node :: n < |h| ==> LayoutOk(n)
    {
    }

    method AddEntry(e: Entry, ghost x: Elem, ghost rset: seq<RSet>, ghost es: seq<Elem>, ghost depth: nat)
      requires Agrees(rset, es, depth) && Is(e, x)
      modifies this`Repr, this`stackRepr, Repr
      ensures Agrees(rset, es + [x], depth) && fresh(Repr - old(Repr)) && old(ts.groups) <= ts.groups
    {
      hide Stacked, Sets, Is, LayoutOk;
      AddTop(e, x, es, depth);
      Repr := {pool, pool.hashTable} + stackRepr;
    }

    /** currentStackBoundary = stackTop. */
    method Mark(ghost rset: seq<RSet>, ghost es: seq<Elem>, ghost depth: nat)
      requires Agrees(rset, es, depth)
      modifies this`boundary, this`k
      ensures Agrees(rset, es, |es|)
    {
      hide Sets, Entries, LayoutOk, Stack.Valid, Stack.Contents;
      assert |ts.Contents()| == |es| by { SameDepth(es); }
      boundary, k := ts.Mark();
    }

    lemma SameDepth(es: seq<Elem>)
      requires ts.Valid() && (forall n: Node :: n < |h| ==> LayoutOk(n)) && Entries(ts.Contents(), es)
      ensures |ts.Contents()| == |es|
    {
    }

    /** currentStackBoundary = oldStackBoundary. */
    method Restore(b: Pointer<Entry>, ghost rset: seq<RSet>, ghost es: seq<Elem>, ghost depth: nat,
                   ghost to: (nat, nat))
      requires Agrees(rset, es, depth) && ts.Marks(b, to.0, to.1)
      modifies this`boundary, this`k
      ensures Agrees(rset, es, to.0)
    {
      hide Sets, Entries, LayoutOk, Stack.Valid, Stack.Contents;
      boundary, k := b, to.1;
    }
  }
}
