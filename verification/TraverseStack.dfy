/**
 The traverse stack of kernel/rts/RetainerProfile.c: block groups, each filled from its end, that together are one
 stack.
 */
module TraverseStack {
  import opened Base

  /** A block group; link leads towards the top of the stack, back towards its bottom. */
  class Group<E(0)> {
    const elems: array<E>
    const back: Group?<E>
    var link: Group?<E>
    var free: nat

    constructor (size: nat, back: Group?<E>)
      ensures fresh(elems) && elems.Length == size && this.back == back && link == null && free == size
    {
      elems := new E[size];
      this.back, link, free := back, null, size;
    }
  }

  /** A pointer into a group. */
  datatype Pointer<E(0)> = Pointer(group: Group<E>, index: nat)

  class Stack<E(0)> {
    const size: nat                       // entries in a group
    var firstStack: Group<E>
    var currentStack: Group<E>
    var stackTop: nat                     // an index into currentStack; stackBottom is 0, stackLimit is size
    ghost var groups: seq<Group<E>>       // all the groups, from firstStack on
    ghost var current: nat                // the number of currentStack

    ghost predicate Linked()
      reads this`firstStack, this`currentStack, this`groups, this`current, groups`link
    {
      && size > 1 && current < |groups| && firstStack == groups[0] && currentStack == groups[current] && NoDup(groups)
      && groups[0].back == null && groups[|groups| - 1].link == null
      && (forall i :: 0 < i < |groups| ==> groups[i].back == groups[i - 1])
      && (forall i :: 0 <= i < |groups| - 1 ==> groups[i].link == groups[i + 1])
    }

    ghost predicate Arrays()
      reads this`groups
    {
      && (forall i :: 0 <= i < |groups| ==> groups[i].elems.Length == size)
      && (forall i, j :: 0 <= i < j < |groups| ==> groups[i].elems != groups[j].elems)
    }

    /** The lowest n groups are full. */
    ghost predicate Full(n: nat)
      reads this`groups, groups`free
    {
      n <= |groups| && forall i :: 0 <= i < n ==> groups[i].free == 0
    }

    /** Groups below the current one are full, and the current one is not empty unless the whole stack is. */
    ghost predicate Valid()
      reads this, groups
    {
      && Linked() && Arrays()
      && Full(current) && stackTop <= size && (stackTop == size ==> current == 0)
    }

    /** The entries of the groups below n, the topmost first. */
    ghost function Below(n: nat): seq<E>
      requires n <= |groups| && Arrays()
      reads this`groups, set g | g in groups :: g.elems
    {
      if n == 0 then [] else groups[n - 1].elems[..] + Below(n - 1)
    }

    /** The one stack, its top first. */
    ghost function Contents(): seq<E>
      requires Valid()
      reads this, groups, set g | g in groups :: g.elems
    {
      groups[current].elems[stackTop..] + Below(current)
    }

    /** initializeTraverseStack. */
    constructor (size: nat)
      requires size > 1
      ensures Valid() && Contents() == [] && fresh(groups) && this.size == size
      ensures groups == [currentStack] && fresh(currentStack.elems)
    {
      this.size := size;
      var g := new Group<E>(size, null);
      firstStack, currentStack, stackTop := g, g, size;
      groups, current := [g], 0;
    }

    lemma {:induction false} BelowLength(n: nat)
      requires n <= |groups| && Arrays()
      ensures |Below(n)| == n * size
    {
      if n > 0 {
        BelowLength(n - 1);
        assert n * size == (n - 1) * size + size;
      }
    }

    /** isEmptyRetainerStack. */
    method IsEmpty() returns (b: bool)
      requires Valid()
      ensures b <==> Contents() == []
    {
      BelowLength(current);
      b := firstStack == currentStack && stackTop == size;
      assert current > 0 ==> groups[current] != groups[0];
    }

    /** Nothing in the lowest groups has changed. */
    twostate lemma BelowKept(n: nat)
      requires n <= |old(groups)| && old(Arrays()) && Arrays() && old(groups) <= groups
      requires forall i :: 0 <= i < n ==> unchanged(old(groups)[i].elems)
      ensures Below(n) == old(Below(n))
    {
      if n > 0 {
        BelowKept(n - 1);
      }
    }

    method AddGroup() returns (nbd: Group<E>)
      requires Linked() && Arrays() && current + 1 == |groups|
      modifies this`groups, currentStack`link
      ensures Linked() && Arrays() && groups == old(groups) + [nbd] && fresh(nbd) && fresh(nbd.elems)
    {
      nbd := new Group<E>(size, currentStack);
      assert nbd !in groups;
      currentStack.link := nbd;
      groups := groups + [nbd];
    }

    method Next() returns (nbd: Group<E>)
      requires Linked() && Arrays()
      modifies this`groups, currentStack`link
      ensures Linked() && Arrays()
      ensures (groups == old(groups) || (groups == old(groups) + [nbd] && fresh(nbd) && fresh(nbd.elems)))
      ensures current + 1 < |groups| && nbd == groups[current + 1]
    {
      assert current < |groups| - 1 ==> currentStack.link == groups[current + 1];
      if currentStack.link == null {
        nbd := AddGroup();
      } else {
        nbd := currentStack.link;
      }
    }

    /** newStackBlock, on the next group. */
    method NewStackBlock(bd: Group<E>)
      requires current + 1 < |groups| && bd == groups[current + 1] && Linked() && Arrays() && Full(current + 1)
      modifies this`currentStack, this`stackTop, this`current, bd`free
      ensures Linked() && Arrays() && stackTop == size && current == old(current) + 1
      ensures Full(current)
    {
      Apart(current + 1);
      currentStack := bd;
      stackTop := size;
      bd.free := size;
      current := current + 1;
    }

    /** The current group is left, full. */
    method Seal() returns (nbd: Group<E>)
      requires Valid() && stackTop == 0
      modifies this`groups, currentStack`free, currentStack`link
      ensures Linked() && Arrays() && current + 1 < |groups| && nbd == groups[current + 1]
      ensures groups == old(groups) || (groups == old(groups) + [nbd] && fresh(nbd) && fresh(nbd.elems))
      ensures Full(current + 1)
    {
      hide Arrays;
      assert forall i :: 0 <= i < current ==> groups[i] != groups[current];
      currentStack.free := stackTop;
      nbd := Next();
    }

    lemma FullContents()
      requires Valid() && stackTop == 0
      ensures current < |groups| && Contents() == Below(current + 1) && currentStack in groups
    {
      assert groups[current].elems[0..] == groups[current].elems[..];
    }

    /** The part of push for a full group: the next one, new if there is none. */
    method NextGroup()
      requires Valid() && stackTop == 0
      modifies this`currentStack, this`stackTop, this`groups, this`current, groups
      ensures Linked() && Arrays() && stackTop == size && current == old(current) + 1
      ensures groups == old(groups)
          || (groups == old(groups) + [currentStack] && fresh(currentStack) && fresh(currentStack.elems))
      ensures Full(current)
      ensures Below(current) == old(Contents())
    {
      hide Contents, Below, Arrays, Linked, Full, NoDup;
      FullContents();
      var nbd := Seal();
      NewStackBlock(nbd);
      BelowKept(current);
    }

    /** A group is none of those before it. */
    lemma Apart(n: nat)
      requires Linked() && n < |groups|
      ensures forall i :: 0 <= i < n ==> groups[i] != groups[n]
    {
    }

    /** The actual push. */
    method Store(e: E)
      requires Linked() && Arrays() && 0 < stackTop <= size && Full(current)
      modifies this`stackTop, currentStack.elems
      ensures Valid() && Contents() == [e] + old(groups[current].elems[stackTop..] + Below(current))
    {
      stackTop := stackTop - 1;
      currentStack.elems[stackTop] := e;
      BelowKept(current);
      assert groups[current].elems[stackTop..] == [e] + old(groups[current].elems[stackTop..]);
    }

    method Push(e: E)
      requires Valid()
      modifies this, groups, set g | g in groups :: g.elems
      ensures Valid() && (groups == old(groups)
          || (groups == old(groups) + [currentStack] && fresh(currentStack) && fresh(currentStack.elems)))
      ensures old(groups) <= groups && currentStack in groups && Contents() == [e] + old(Contents())
    {
      if stackTop == 0 {
        NextGroup();
        assert groups[current].elems[size..] == [];
      }
      assert currentStack == groups[current];
      Store(e);
    }

    /** returnToOldStack. */
    method ReturnToOldStack(bd: Group<E>)
      requires 0 < current < |groups| && bd == groups[current - 1] && Valid() && bd.free == 0
      modifies this`currentStack, this`stackTop, this`current, bd`free
      ensures Valid() && current == old(current) - 1 && stackTop == 0
    {
      Apart(current - 1);
      currentStack := bd;
      stackTop := bd.free;
      bd.free := size;
      current := current - 1;
    }

    /** popOffReal: the last entry of a group. */
    method PopOffReal()
      requires Valid() && stackTop + 1 == size
      modifies this`currentStack, this`stackTop, this`current, groups`free
      ensures Valid() && Contents() == old(Contents())[1..]
    {
      Last(groups[current].elems[stackTop..], Below(current));
      if firstStack == currentStack {
        assert current == 0 by { if current > 0 { Apart(current); } }
        stackTop := stackTop + 1;
      } else {
        assert groups[current].back == groups[current - 1];
        Apart(current);
        currentStack.free := size;
        ReturnToOldStack(currentStack.back);
        assert groups[current].elems[0..] == groups[current].elems[..];
        BelowKept(current);
      }
    }

    lemma Last(s: seq<E>, t: seq<E>)
      requires |s| == 1
      ensures (s + t)[1..] == t
    {
    }

    lemma EmptyTop()
      requires Valid()
      ensures stackTop == size ==> Contents() == []
    {
      if stackTop == size {
        assert groups[current].elems[stackTop..] == [];
      }
    }

    /** popOff. */
    method PopOff()
      requires Valid() && Contents() != []
      modifies this`currentStack, this`stackTop, this`current, groups`free
      ensures Valid() && Contents() == old(Contents())[1..]
    {
      EmptyTop();
      if stackTop + 1 < size {
        ghost var top := groups[current].elems[stackTop..];
        assert (top + Below(current))[1..] == top[1..] + Below(current);
        stackTop := stackTop + 1;
        assert groups[current].elems[stackTop..] == top[1..];
        return;
      }
      PopOffReal();
    }

    // ----- boundaries -----

    /** b is what stackTop points to when there are depth entries. */
    ghost predicate Marks(b: Pointer<E>, depth: nat, k: nat)
      reads this`groups
    {
      && k < |groups| && b.group == groups[k] && b.index <= size && (b.index == size ==> k == 0)
      && depth + b.index == k * size + size
    }

    /** currentStackBoundary = stackTop. */
    method Mark() returns (b: Pointer<E>, ghost k: nat)
      requires Valid()
      ensures Marks(b, |Contents()|, k)
    {
      BelowLength(current);
      b, k := Pointer(currentStack, stackTop), current;
    }

    lemma Higher(k: nat, i: nat, k': nat, i': nat)
      requires k < k' && i' < size
      ensures k * size + size - i < k' * size + size - i'
    {
      assert (k' - k - 1) * size >= 0;
      assert k' * size == k * size + (k' - k - 1) * size + size;
    }

    /** isOnBoundary: the stack is as deep as it was when the boundary was set, however the groups were switched
        since. */
    method IsOnBoundary(b: Pointer<E>, ghost depth: nat, ghost k: nat) returns (on: bool)
      requires Valid() && Marks(b, depth, k)
      ensures on <==> |Contents()| == depth
    {
      BelowLength(current);
      SameNumber(k, current);
      on := currentStack == b.group && stackTop == b.index;
      if k < current {
        Higher(k, b.index, current, stackTop);
      } else if current < k {
        Higher(current, stackTop, k, b.index);
      }
    }

    lemma SameNumber(i: nat, j: nat)
      requires Linked() && i < |groups| && j < |groups|
      ensures groups[i] == groups[j] <==> i == j
    {
    }

    /** A boundary stays one while groups are added. */
    twostate lemma MarkKept(a: (Pointer<E>, nat, nat))
      requires old(Marks(a.0, a.1, a.2)) && old(groups) <= groups
      ensures Marks(a.0, a.1, a.2)
    {
    }

    // ----- the top entry, in place -----

    method Top() returns (e: E)
      requires Valid() && Contents() != []
      ensures e == Contents()[0]
    {
      EmptyTop();
      e := currentStack.elems[stackTop];
    }

    method SetTop(e: E)
      requires Valid() && Contents() != []
      modifies currentStack.elems
      ensures Valid() && Contents() == [e] + old(Contents())[1..]
    {
      EmptyTop();
      ghost var top := groups[current].elems[stackTop..];
      currentStack.elems[stackTop] := e;
      BelowKept(current);
      assert groups[current].elems[stackTop..] == [e] + top[1..];
    }
  }
}
